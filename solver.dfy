/**
  The backtracking solver: consistency checks and propagation passes over
  the network, variable selectors, value orderers, the strategy dispatch
  and the search itself.
 */
module Solver {
  import opened Network
  import opened Trails
  import opened Propagation
  import opened Ordering
  import opened Arcs
  import opened Singles

  /** The consistency-check tag; any unrecognised name falls through to `DefaultCheck`. */
  datatype ConsistencyCheck = ForwardCheckingTag | NorvigCheckTag | TournCCTag | DefaultCheck

  /** The variable-selection tag; any unrecognised name falls through to `FirstUnassignedTag`. */
  datatype VariableSelection = MinimumRemainingValueTag | MRVwithTieBreakerTag | TournVarTag | FirstUnassignedTag

  /** The value-ordering tag; any unrecognised name falls through to `InOrderTag`. */
  datatype ValueOrdering = LeastConstrainingValueTag | TournValTag | InOrderTag

  /**
    Projecting the sorted (conflicts, value) pairs of an ascending list of
    values onto their values gives the least-constraining-value order of
    those values.
   */
  lemma LcvFromPairs(s: Shape, cells: seq<Cell>, v: nat, values: seq<int>,
                     keyed: seq<(int, int)>, sorted: seq<(int, int)>, r: seq<int>)
    requires |keyed| == |values|
    requires forall u :: 0 <= u < |values| ==> keyed[u] == LcvKey(s, cells, v, values[u])
    requires PairsSorted(sorted) && (forall q :: q in sorted <==> q in keyed)
    requires |r| == |sorted| && forall u :: 0 <= u < |r| ==> r[u] == sorted[u].1
    ensures LcvSorted(s, cells, v, r)
    ensures forall x :: x in r <==> x in values
  {
    assert forall q :: q in sorted ==> q == LcvKey(s, cells, v, q.1) by {
      forall q | q in sorted ensures q == LcvKey(s, cells, v, q.1) {
        var u :| 0 <= u < |keyed| && keyed[u] == q;
      }
    }
    forall i, j | 0 <= i < j < |r|
      ensures KeyLess(LcvKey(s, cells, v, r[i]), LcvKey(s, cells, v, r[j]))
    {
      assert sorted[i] in sorted && sorted[j] in sorted;
    }
    forall x ensures x in r <==> x in values {
      if x in values {
        var u :| 0 <= u < |values| && values[u] == x;
        assert keyed[u] in sorted;
        var w :| 0 <= w < |sorted| && sorted[w] == keyed[u];
        assert r[w] == x;
      }
      if x in r {
        var w :| 0 <= w < |r| && r[w] == x;
        assert sorted[w] in keyed;
      }
    }
  }

  /**
    The map m records exactly the variables assigned in `after` that were
    unassigned in `before`, each with its value.
   */
  predicate Recorded(before: seq<Cell>, after: seq<Cell>, m: map<nat, int>) {
    && |after| == |before|
    && (forall j :: j in m ==> j < |after| && after[j].val == Some(m[j]))
    && (forall j: nat :: j < |after| ==> (j in m <==> !before[j].Assigned() && after[j].Assigned()))
  }

  /**
    The verdict of `forwardChecking()`: an inconsistent network fails
    unchanged; otherwise the scan runs up to its stop turn, and passes
    when it reaches the end with the network consistent.
   */
  ghost predicate ForwardOutcome(s: Shape, before: seq<Cell>, after: seq<Cell>, ok: bool) {
    && (!Consistent(s, before) ==> !ok && after == before)
    && (Consistent(s, before) && |before| == s.Size() ==>
          var stop := StopTurn(s, before, 0);
          && after == ForwardCheck(s, before, stop)
          && ok == (stop == |after| && Consistent(s, after)))
  }

  /**
    The verdict of `norvigCheck()`: an inconsistent network fails
    unchanged. The check passes whenever it ends with a sound network in
    which every value still has a place in every constraint. Passing
    means the elimination scan left no domain empty,
    every value had a place in every constraint of the state it left,
    every value with a single place there found that variable assigned,
    and the network is consistent with no assigned value left in a
    neighbour's domain.
   */
  ghost predicate NorvigOutcome(s: Shape, before: seq<Cell>, after: seq<Cell>, ok: bool) {
    && (!Consistent(s, before) ==> !ok && after == before)
    && (ok && |before| == s.Size() ==>
          var pruned := ForwardCheck(s, before, |before|);
          && Survives(s, before) && Consistent(s, after) && Eliminated(s, after)
          && Placeable(s, pruned)
          && SinglesFilled(s, pruned, after))
    && (Sound(s, after) && Placeable(s, after) ==> ok)
    && (s.WellFormed() && |before| == s.Size() && Consistent(s, before) && Survives(s, before) ==>
          SinglesChecked(s, ForwardCheck(s, before, |before|)) == Sweep(after, !ok))
  }

  /** The map `PlaceValue` leaves: the free holder of z, if there is one, is added with z. */
  lemma PlacedMap(s: Shape, c0: seq<Cell>, start: seq<Cell>, after: seq<Cell>, m0: map<nat, int>, vars: seq<nat>,
                  z: int, m: map<nat, int>)
    requires Narrowed(c0, start) && Recorded(c0, start, m0)
    requires Placing(s, start, after, vars, z) && Recorded(c0, after, m)
    ensures forall j :: j in vars && FreeHolder(start, vars, z, j) ==> m == m0[j := z]
    ensures (forall j :: j in vars ==> !FreeHolder(start, vars, z, j)) ==> m == m0
  {
    forall j | j in vars && FreeHolder(start, vars, z, j) ensures m == m0[j := z] {
      RecordedPlace(c0, start, after, m0, j, z);
      RecordedUnique(c0, after, m, m0[j := z]);
    }
    if forall j :: j in vars ==> !FreeHolder(start, vars, z, j) {
      RecordedUnique(c0, after, m, m0);
    }
  }

  /** The assignments made determine the map that records them. */
  lemma RecordedUnique(before: seq<Cell>, after: seq<Cell>, m1: map<nat, int>, m2: map<nat, int>)
    requires Recorded(before, after, m1) && Recorded(before, after, m2)
    ensures m1 == m2
  {
    assert m1.Keys == m2.Keys;
    forall j | j in m1 ensures m1[j] == m2[j] {
      assert after[j].val == Some(m1[j]) == Some(m2[j]);
    }
  }

  /** Assigning z to the unassigned variable j records it, with z, and nothing else. */
  lemma RecordedPlace(c0: seq<Cell>, before: seq<Cell>, after: seq<Cell>, m0: map<nat, int>, j: nat, z: int)
    requires Recorded(c0, before, m0) && Narrowed(c0, before) && Narrowed(before, after)
    requires j < |before| && !before[j].Assigned() && after[j].val == Some(z)
    requires forall w :: 0 <= w < |before| && w != j ==> after[w].val == before[w].val
    ensures j !in m0 && Recorded(c0, after, m0[j := z])
  {
  }

  class BTSolver {
    const shape: Shape
    var cells: seq<Cell>
    /** The per-domain "modified" bit. */
    var dirty: seq<bool>
    const trail: Trail
    var hasSolution: bool
    const valHeuristics: ValueOrdering
    const varHeuristics: VariableSelection
    const cChecks: ConsistencyCheck

    ghost predicate Valid()
      reads this, trail
    {
      && shape.WellFormed()
      && StateOK(shape, cells)
      && |dirty| == |cells|
      && LogValid()
      && (hasSolution ==> AllAssigned(cells))
    }

    constructor (s: Shape, initial: seq<Cell>, t: Trail,
                 valSh: ValueOrdering, varSh: VariableSelection, cc: ConsistencyCheck)
      requires s.WellFormed() && StateOK(s, initial) && t.Valid()
      requires Snapshots(s, |initial|, t.entries)
      ensures Valid() && !hasSolution
      ensures shape == s && cells == initial && trail == t
      ensures valHeuristics == valSh && varHeuristics == varSh && cChecks == cc
    {
      shape := s;
      cells := initial;
      dirty := seq(|initial|, _ => false);
      trail := t;
      hasSolution := false;
      valHeuristics := valSh;
      varHeuristics := varSh;
      cChecks := cc;
    }

    /** `haveSolution`: a reported solution assigns every variable. */
    function HaveSolution(): (r: bool)
      requires Valid()
      reads this, trail
      ensures r ==> AllAssigned(cells)
    {
      hasSolution
    }

    // -------------------------------------------------------------------
    // Consistency checks
    // -------------------------------------------------------------------

    /** `assignmentsCheck`: true iff every constraint is consistent; prunes nothing. */
    method AssignmentsCheck() returns (ok: bool)
      ensures ok == Consistent(shape, cells)
    {
      var k := 0;
      while k < |shape.constraints|
        invariant 0 <= k <= |shape.constraints|
        invariant forall k' :: 0 <= k' < k ==> ConstraintConsistent(shape.constraints[k'], cells)
      {
        if !ConstraintConsistent(shape.constraints[k], cells) {
          return false;
        }
        k := k + 1;
      }
      return true;
    }

    /** `getTournCC`: the tournament check is a stub that always fails. */
    method GetTournCC() returns (ok: bool)
      ensures !ok
    {
      ok := false;
    }

    // -------------------------------------------------------------------
    // Variable selectors
    // -------------------------------------------------------------------

    /** `getfirstUnassignedVariable`. */
    method GetFirstUnassignedVariable() returns (r: Option<nat>)
      ensures IsFirstUnassigned(cells, r)
    {
      var k := 0;
      while k < |cells|
        invariant 0 <= k <= |cells|
        invariant forall j :: 0 <= j < k ==> cells[j].Assigned()
      {
        if !cells[k].Assigned() {
          return Some(k);
        }
        k := k + 1;
      }
      return None;
    }

    /** `getMRV`: the first unassigned variable of smallest domain, None when all are assigned. */
    method GetMRV() returns (r: Option<nat>)
      requires Valid()
      ensures IsMRV(cells, r)
    {
      var mrvNum := Infinity;
      var mrvPos: Option<nat> := None;
      var k := 0;
      while k < |cells|
        invariant 0 <= k <= |cells|
        invariant mrvPos.None? ==> mrvNum == Infinity && forall j :: 0 <= j < k ==> cells[j].Assigned()
        invariant mrvPos.Some? ==>
          && mrvPos.value < k && !cells[mrvPos.value].Assigned() && mrvNum == Size(cells, mrvPos.value)
          && (forall j :: 0 <= j < k && !cells[j].Assigned() ==> mrvNum <= Size(cells, j))
          && (forall j :: 0 <= j < mrvPos.value && !cells[j].Assigned() ==> Size(cells, j) > mrvNum)
      {
        assert CellOK(cells[k], shape.n);
        if !cells[k].Assigned() && mrvNum > |cells[k].dom| {
          mrvNum := |cells[k].dom|;
          mrvPos := Some(k);
        }
        k := k + 1;
      }
      r := mrvPos;
    }

    /** The number of unassigned neighbours of variable k (its degree). */
    method UnassignedNeighbours(k: nat) returns (lc: nat)
      requires k < |shape.neighbours|
      ensures lc == Degree(shape, cells, k)
    {
      var nb := shape.neighbours[k];
      lc := 0;
      var t := 0;
      while t < |nb|
        invariant 0 <= t <= |nb|
        invariant lc == CountUnassigned(cells, nb[..t])
      {
        assert nb[..t + 1][..t] == nb[..t];
        if nb[t] < |cells| && !cells[nb[t]].Assigned() {
          lc := lc + 1;
        }
        t := t + 1;
      }
      assert nb[..t] == nb;
    }

    /**
      `MRVwithTieBreaker`: never empty; the first element is the MRV choice
      broken by degree (None when every variable is assigned), the others
      tie with it on both.
     */
    method MRVwithTieBreaker() returns (r: seq<Option<nat>>)
      requires Valid()
      ensures IsTieBreakChoice(shape, cells, r)
    {
      var mrvNum := Infinity;
      var mrvPos: Option<nat> := None;
      var maxCounter := 0;
      var candidate: seq<Option<nat>> := [];
      var k := 0;
      while k < |cells|
        invariant 0 <= k <= |cells| && TieBreakAt(k, mrvNum, mrvPos, maxCounter, candidate)
      {
        mrvNum, mrvPos, maxCounter, candidate := TieBreakStep(k, mrvNum, mrvPos, maxCounter, candidate);
        k := k + 1;
      }
      assert k == |cells|;
      r := [mrvPos] + candidate;
      assert r[1..] == candidate;
    }

    /**
      After the first k variables: mrvPos is the choice so far, with domain
      size mrvNum and degree maxCounter, and candidate lists the later
      variables tying with it on both.
     */
    ghost predicate TieBreakAt(k: nat, mrvNum: int, mrvPos: Option<nat>, maxCounter: int, candidate: seq<Option<nat>>)
      reads this
      requires k <= |cells|
    {
      && (mrvPos.None? ==>
            && mrvNum == Infinity && maxCounter == 0 && candidate == []
            && forall j :: 0 <= j < k ==> cells[j].Assigned())
      && (mrvPos.Some? ==>
            && mrvPos.value < k && !cells[mrvPos.value].Assigned()
            && mrvNum == Size(cells, mrvPos.value) && maxCounter == Degree(shape, cells, mrvPos.value)
            && (forall j :: 0 <= j < k && !cells[j].Assigned() ==> mrvNum <= Size(cells, j))
            && (forall j :: 0 <= j < k && !cells[j].Assigned() && Size(cells, j) == mrvNum
                  ==> Degree(shape, cells, j) <= maxCounter)
            && (forall j :: 0 <= j < mrvPos.value && !cells[j].Assigned() && Size(cells, j) == mrvNum
                  ==> Degree(shape, cells, j) < maxCounter)
            && candidate == TiesUpTo(shape, cells, mrvPos.value, k))
    }

    /**
      Variable k in `MRVwithTieBreaker`: a smaller domain makes it the new
      choice; an equal domain with a larger degree too; an equal domain
      and degree add it to the candidates.
     */
    method TieBreakStep(k: nat, mrvNum0: int, mrvPos0: Option<nat>, maxCounter0: int, candidate0: seq<Option<nat>>)
      returns (mrvNum: int, mrvPos: Option<nat>, maxCounter: int, candidate: seq<Option<nat>>)
      requires Valid() && k < |cells| && TieBreakAt(k, mrvNum0, mrvPos0, maxCounter0, candidate0)
      ensures TieBreakAt(k + 1, mrvNum, mrvPos, maxCounter, candidate)
    {
      mrvNum, mrvPos, maxCounter, candidate := mrvNum0, mrvPos0, maxCounter0, candidate0;
      assert CellOK(cells[k], shape.n);
      if !cells[k].Assigned() {
        if mrvNum > |cells[k].dom| {
          candidate := [];
          mrvNum := |cells[k].dom|;
          mrvPos := Some(k);
          var lc := UnassignedNeighbours(k);
          maxCounter := lc;
        } else if mrvNum == |cells[k].dom| {
          var lc := UnassignedNeighbours(k);
          if lc > maxCounter {
            maxCounter := lc;
            mrvPos := Some(k);
            candidate := [];
          } else if lc == maxCounter {
            candidate := candidate + [Some(k)];
          }
        }
      }
    }

    // -------------------------------------------------------------------
    // Value orderers
    // -------------------------------------------------------------------

    /** `getValuesInOrder`: the domain of v in ascending order. */
    method GetValuesInOrder(v: nat) returns (r: seq<int>)
      requires Valid() && v < |cells|
      ensures Ascending(r)
      ensures forall x :: x in r <==> x in cells[v].dom
    {
      assert CellOK(cells[v], shape.n);
      r := [];
      var x := 1;
      while x <= shape.n
        invariant 1 <= x <= shape.n + 1
        invariant Ascending(r)
        invariant forall i :: 0 <= i < |r| ==> r[i] < x
        invariant forall y :: y in r <==> y in cells[v].dom && y < x
      {
        if x in cells[v].dom {
          r := r + [x];
        }
        x := x + 1;
      }
    }

    /** How many neighbours of v hold value x. */
    method ConflictCount(v: nat, x: int) returns (conflict: nat)
      requires v < |shape.neighbours|
      ensures conflict == Conflicts(shape, cells, v, x)
    {
      var nb := shape.neighbours[v];
      conflict := 0;
      var t := 0;
      while t < |nb|
        invariant 0 <= t <= |nb|
        invariant conflict == CountHolding(cells, nb[..t], x)
      {
        assert nb[..t + 1][..t] == nb[..t];
        if nb[t] < |cells| && x in cells[nb[t]].dom {
          conflict := conflict + 1;
        }
        t := t + 1;
      }
      assert nb[..t] == nb;
    }

    /**
      `getValuesLCVOrder`: the domain of v sorted by the number of
      neighbours that hold each value, ties by value.
     */
    method GetValuesLCVOrder(v: nat) returns (r: seq<int>)
      requires Valid() && v < |cells|
      ensures LcvSorted(shape, cells, v, r)
      ensures forall x :: x in r <==> x in cells[v].dom
    {
      var values := GetValuesInOrder(v);
      var conflictVec: seq<(int, int)> := [];
      var t := 0;
      while t < |values|
        invariant 0 <= t <= |values| && |conflictVec| == t
        invariant forall u :: 0 <= u < t ==> conflictVec[u] == LcvKey(shape, cells, v, values[u])
      {
        var conflict := ConflictCount(v, values[t]);
        conflictVec := conflictVec + [(conflict, values[t])];
        t := t + 1;
      }
      assert forall i, j :: 0 <= i < j < |conflictVec| ==> conflictVec[i].1 < conflictVec[j].1;
      var sorted := SortPairs(conflictVec);
      r := [];
      t := 0;
      while t < |sorted|
        invariant 0 <= t <= |sorted| && |r| == t
        invariant forall u :: 0 <= u < t ==> r[u] == sorted[u].1
      {
        r := r + [sorted[t].1];
        t := t + 1;
      }
      LcvFromPairs(shape, cells, v, values, conflictVec, sorted, r);
    }

    /** `getTournVar`: the tournament selector is a stub that selects nothing. */
    method GetTournVar() returns (r: Option<nat>)
      ensures r == None
    {
      r := None;
    }

    /** `getTournVal`: the tournament orderer is a stub that proposes no value. */
    method GetTournVal(v: nat) returns (r: seq<int>)
      ensures r == []
    {
      r := [];
    }

    /**
      `selectNextVariable`: dispatch on the variable-selection tag, falling
      through to the first unassigned variable. Whatever the strategy, a
      selected variable is unassigned, and nothing is selected while some
      variable is unassigned only under the tournament stub.
     */
    method SelectNextVariable() returns (r: Option<nat>)
      requires Valid()
      ensures r.Some? ==> r.value < |cells| && !cells[r.value].Assigned()
      ensures r.None? ==> AllAssigned(cells) || varHeuristics == TournVarTag
      ensures varHeuristics == MinimumRemainingValueTag ==> IsMRV(cells, r)
      ensures varHeuristics == MRVwithTieBreakerTag ==>
        exists choice :: IsTieBreakChoice(shape, cells, choice) && r == choice[0]
      ensures varHeuristics == TournVarTag ==> r == None
      ensures varHeuristics == FirstUnassignedTag ==> IsFirstUnassigned(cells, r)
    {
      match varHeuristics {
        case MinimumRemainingValueTag =>
          r := GetMRV();
        case MRVwithTieBreakerTag =>
          var choice := MRVwithTieBreaker();
          r := choice[0];
          assert r.Some? ==> MinRemaining(cells, r.value);
        case TournVarTag =>
          r := GetTournVar();
        case FirstUnassignedTag =>
          r := GetFirstUnassignedVariable();
      }
    }

    /**
      `getNextValues`: dispatch on the value-ordering tag, falling through
      to ascending order. Every proposed value is in the domain of v, and
      apart from the tournament stub every domain value is proposed.
     */
    method GetNextValues(v: nat) returns (r: seq<int>)
      requires Valid() && v < |cells|
      ensures forall x :: x in r ==> x in cells[v].dom
      ensures valHeuristics != TournValTag ==> forall x :: x in cells[v].dom ==> x in r
      ensures valHeuristics == LeastConstrainingValueTag ==> LcvSorted(shape, cells, v, r)
      ensures valHeuristics == TournValTag ==> r == []
      ensures valHeuristics == InOrderTag ==> Ascending(r)
    {
      match valHeuristics {
        case LeastConstrainingValueTag =>
          r := GetValuesLCVOrder(v);
        case TournValTag =>
          r := GetTournVal(v);
        case InOrderTag =>
          r := GetValuesInOrder(v);
      }
    }

    // -------------------------------------------------------------------
    // Propagation passes
    // -------------------------------------------------------------------

    /** The trail's log only grows past its old end, the markers stay, and rolling back the growth restores `before`. */
    ghost predicate Logged(log0: seq<Entry>, marks0: seq<nat>, before: seq<Cell>)
      reads this, trail
    {
      trail.markers == marks0 && Grown(cells, trail.entries, log0, before)
    }

    /** The trail is well nested and logs valid states of existing variables. */
    ghost predicate LogValid()
      reads this, trail
    {
      trail.Valid() && Snapshots(shape, |cells|, trail.entries)
    }

    /** What holds at every step of a scan that started from the consistent state c0. */
    ghost predicate Scanning(c0: seq<Cell>, log0: seq<Entry>, marks0: seq<nat>)
      reads this, trail
    {
      && shape.WellFormed() && StateOK(shape, c0) && Consistent(shape, c0)
      && |cells| == |dirty| == |c0|
      && LogValid() && Logged(log0, marks0, c0)
    }

    /**
      `forwardChecking`: on an inconsistent network, fails and changes
      nothing. Otherwise it scans the variables in storage order: a variable
      whose domain is empty when its turn comes stops the scan with failure,
      and an assigned variable removes its value from its neighbours,
      logging each one on the trail before changing it. A completed scan
      leaves no assigned value in a neighbour's domain, reports the
      consistency of the result, and maps the variables flagged as modified
      to their new domains. So the pass fails only by leaving an empty
      domain or an inconsistent network.
     */
    method ForwardChecking() returns (m: map<nat, set<int>>, ok: bool)
      requires Valid()
      modifies this`cells, this`dirty, trail
      ensures Valid()
      ensures Logged(old(trail.entries), old(trail.markers), old(cells))
      ensures Narrowed(old(cells), cells) && SameVals(old(cells), cells)
      ensures ok ==> Consistent(shape, cells) && Eliminated(shape, cells)
      ensures !Consistent(shape, old(cells)) ==>
        m == map[] && !ok && cells == old(cells) && dirty == old(dirty) && trail.entries == old(trail.entries)
      ensures Consistent(shape, old(cells)) ==>
        var stop := StopTurn(shape, old(cells), 0);
        && cells == ForwardCheck(shape, old(cells), stop)
        && (stop < |cells| ==> m == map[] && !ok)
        && (stop == |cells| ==>
              && ok == Consistent(shape, cells) && Eliminated(shape, cells)
              && m.Keys == Reported(shape, old(cells))
              && forall j :: j in m ==> j < |cells| && m[j] == cells[j].dom)
      ensures Sound(shape, cells) ==> ok
    {
      if !Consistent(shape, cells) {
        return map[], false;
      }
      ghost var c0 := cells;
      m, ok := ForwardCheckConsistent();
      if StopTurn(shape, c0, 0) < |cells| {
        assert cells[StopTurn(shape, c0, 0)].dom == {};
      }
    }

    /** `forwardChecking` on a network that is consistent on entry. */
    method ForwardCheckConsistent() returns (m: map<nat, set<int>>, ok: bool)
      requires Valid() && Consistent(shape, cells)
      modifies this`cells, this`dirty, trail
      ensures Valid()
      ensures Logged(old(trail.entries), old(trail.markers), old(cells))
      ensures Narrowed(old(cells), cells) && SameVals(old(cells), cells)
      ensures var stop := StopTurn(shape, old(cells), 0);
        && cells == ForwardCheck(shape, old(cells), stop)
        && (stop < |cells| ==> m == map[] && !ok)
        && (stop == |cells| ==>
              && ok == Consistent(shape, cells) && Eliminated(shape, cells)
              && m.Keys == Reported(shape, old(cells))
              && forall j :: j in m ==> j < |cells| && m[j] == cells[j].dom)
    {
      m := map[];
      ghost var c0 := cells;
      assert trail.entries[|trail.entries|..] == [];
      var completed := Scan(c0, trail.entries, trail.markers);
      ForwardCheckOK(shape, c0, StopTurn(shape, c0, 0));
      ForwardCheckShrinks(shape, c0, StopTurn(shape, c0, 0));
      if hasSolution {
        ForwardCheckAssigned(shape, c0, StopTurn(shape, c0, 0));
      }
      if !completed {
        return m, false;
      }
      ForwardCheckEliminates(shape, c0);
      m := ModifiedDomains();
      assert m.Keys == Reported(shape, c0) by {
        forall x: nat ensures x in m.Keys <==> x in Reported(shape, c0) {
        }
      }
      ok := Consistent(shape, cells);
    }

    /** The variable scan of `forwardChecking`, from the consistent state c0. */
    method Scan(ghost c0: seq<Cell>, ghost log0: seq<Entry>, ghost marks0: seq<nat>) returns (completed: bool)
      requires Scanning(c0, log0, marks0) && cells == c0
      modifies this`cells, this`dirty, trail
      ensures Scanning(c0, log0, marks0)
      ensures cells == ForwardCheck(shape, c0, StopTurn(shape, c0, 0))
      ensures completed == (StopTurn(shape, c0, 0) == |c0|)
      ensures completed ==> FlagsAt(shape, c0, dirty, |c0|)
    {
      ForwardCheckStart(shape, c0);
      var i := 0;
      while i < |cells|
        invariant 0 <= i <= |c0| && Scanning(c0, log0, marks0)
        invariant cells == ForwardCheck(shape, c0, i) && i <= StopTurn(shape, c0, 0)
        invariant FlagsAt(shape, c0, dirty, i)
      {
        var empty := ForwardTurn(i, c0, log0, marks0);
        if empty {
          return false;
        }
        i := i + 1;
      }
      assert i == |c0|;
      return true;
    }

    /**
      The turn of variable i in a forward-checking scan: its modified flag
      is cleared; an empty domain stops the scan; an assigned variable
      removes its value from its neighbours.
     */
    method ForwardTurn(i: nat, ghost c0: seq<Cell>, ghost log0: seq<Entry>, ghost marks0: seq<nat>) returns (empty: bool)
      requires Scanning(c0, log0, marks0) && i < |c0| && i <= StopTurn(shape, c0, 0)
      requires cells == ForwardCheck(shape, c0, i) && FlagsAt(shape, c0, dirty, i)
      modifies this`cells, this`dirty, trail
      ensures Scanning(c0, log0, marks0)
      ensures empty == (StopTurn(shape, c0, 0) == i)
      ensures !empty ==> cells == ForwardCheck(shape, c0, i + 1) && FlagsAt(shape, c0, dirty, i + 1)
      ensures empty ==> cells == ForwardCheck(shape, c0, i)
    {
      TurnStart(shape, c0, dirty, i);
      dirty := dirty[i := false];
      if |cells[i].dom| == 0 {
        StopTurnHere(shape, c0, i);
        return true;
      }
      StopTurnPast(shape, c0, i);
      if cells[i].Assigned() {
        EliminateFromNeighbours(i, c0, log0, marks0);
      }
      return false;
    }

    /**
      The turn of an assigned variable i in a forward-checking scan: its
      value leaves the domain of each neighbour holding it.
     */
    method EliminateFromNeighbours(i: nat, ghost c0: seq<Cell>, ghost log0: seq<Entry>, ghost marks0: seq<nat>)
      requires Scanning(c0, log0, marks0) && i < |c0| && c0[i].Assigned()
      requires cells == ForwardCheck(shape, c0, i) && FlagsMid(shape, c0, dirty, i, 0)
      modifies this`cells, this`dirty, trail
      ensures Scanning(c0, log0, marks0)
      ensures cells == ForwardCheck(shape, c0, i + 1) && FlagsAt(shape, c0, dirty, i + 1)
    {
      var curVal := cells[i].val.value;
      assert cells[i] == Cell(DomAt(shape, c0, i, i), c0[i].val);
      MidturnStart(shape, c0, i);
      var t := 0;
      while t < |shape.neighbours[i]|
        invariant 0 <= t <= |shape.neighbours[i]| && curVal == c0[i].val.value
        invariant Scanning(c0, log0, marks0)
        invariant cells == Midturn(shape, c0, i, t) && FlagsMid(shape, c0, dirty, i, t)
      {
        NeighbourInRange(shape, i, t);
        FlagsStep(shape, c0, dirty, i, t);
        EliminateFromNeighbour(i, t, curVal, c0, log0, marks0);
        t := t + 1;
      }
      MidturnEnd(shape, c0, i);
      FlagsEnd(shape, c0, dirty, i);
    }

    /**
      Neighbour t of the assigned variable i: if it holds i's value, it is
      logged on the trail, flagged as modified and loses that value; no
      other flag changes.
     */
    method EliminateFromNeighbour(i: nat, t: nat, curVal: int, ghost c0: seq<Cell>, ghost log0: seq<Entry>, ghost marks0: seq<nat>)
      requires Scanning(c0, log0, marks0)
      requires i < |c0| && c0[i].Assigned() && curVal == c0[i].val.value && t < |shape.neighbours[i]|
      requires cells == Midturn(shape, c0, i, t)
      modifies this`cells, this`dirty, trail
      ensures Scanning(c0, log0, marks0)
      ensures cells == Midturn(shape, c0, i, t + 1)
      ensures var j := shape.neighbours[i][t];
        j < |cells| && dirty == if curVal in old(cells)[j].dom then old(dirty)[j := true] else old(dirty)
    {
      var j := shape.neighbours[i][t];
      NeighbourInRange(shape, i, t);
      MidturnStep(shape, c0, i, t);
      MidturnOK(shape, c0, i, t);
      if curVal in cells[j].dom {
        LogAndRemove(j, curVal, log0, marks0, c0);
      }
    }

    /**
      `trail->push(j)` followed by the removal of v from the domain of j,
      which flags j as modified; rolling the log back still restores `c0`.
     */
    method LogAndRemove(j: nat, v: int, ghost log0: seq<Entry>, ghost marks0: seq<nat>, ghost c0: seq<Cell>)
      requires j < |cells| == |dirty| && CellOK(cells[j], shape.n)
      requires LogValid() && Logged(log0, marks0, c0)
      modifies this`cells, this`dirty, trail
      ensures cells == old(cells)[j := RemoveValue(old(cells)[j], v)] && dirty == old(dirty)[j := true]
      ensures trail.entries == old(trail.entries) + [Entry(j, old(cells)[j])]
      ensures LogValid() && Logged(log0, marks0, c0)
    {
      LogChange(shape, cells, trail.entries, log0, c0, j, RemoveValue(cells[j], v));
      trail.Push(Entry(j, cells[j]));
      dirty := dirty[j := true];
      cells := cells[j := RemoveValue(cells[j], v)];
    }

    /**
      `forwardChecking` with the modified flags cleared once, before the
      scan, instead of at each variable's own turn. The variables, the
      trail and the result are those of `ForwardChecking`; the map of a
      completed pass holds every variable whose domain lost a value.
     */
    method ForwardCheckingAll() returns (m: map<nat, set<int>>, ok: bool)
      requires Valid()
      modifies this`cells, this`dirty, trail
      ensures Valid()
      ensures Logged(old(trail.entries), old(trail.markers), old(cells))
      ensures Narrowed(old(cells), cells) && SameVals(old(cells), cells)
      ensures ok ==> Consistent(shape, cells) && Eliminated(shape, cells)
      ensures !Consistent(shape, old(cells)) ==>
        m == map[] && !ok && cells == old(cells) && dirty == old(dirty) && trail.entries == old(trail.entries)
      ensures Consistent(shape, old(cells)) ==>
        var stop := StopTurn(shape, old(cells), 0);
        && cells == ForwardCheck(shape, old(cells), stop)
        && (stop < |cells| ==> m == map[] && !ok)
        && (stop == |cells| ==>
              && ok == Consistent(shape, cells) && Eliminated(shape, cells)
              && m.Keys == Changed(shape, old(cells))
              && forall j :: j in m ==> j < |cells| && m[j] == cells[j].dom)
    {
      if !Consistent(shape, cells) {
        return map[], false;
      }
      ClearFlags();
      ChangedStart(shape, cells, dirty);
      m, ok := ForwardCheckAllConsistent();
    }

    /** `ForwardCheckingAll` on a network that is consistent on entry, once the flags are cleared. */
    method ForwardCheckAllConsistent() returns (m: map<nat, set<int>>, ok: bool)
      requires Valid() && Consistent(shape, cells) && ChangedAt(shape, cells, dirty, 0)
      modifies this`cells, this`dirty, trail
      ensures Valid()
      ensures Logged(old(trail.entries), old(trail.markers), old(cells))
      ensures Narrowed(old(cells), cells) && SameVals(old(cells), cells)
      ensures var stop := StopTurn(shape, old(cells), 0);
        && cells == ForwardCheck(shape, old(cells), stop)
        && (stop < |cells| ==> m == map[] && !ok)
        && (stop == |cells| ==>
              && ok == Consistent(shape, cells) && Eliminated(shape, cells)
              && m.Keys == Changed(shape, old(cells))
              && forall j :: j in m ==> j < |cells| && m[j] == cells[j].dom)
    {
      m := map[];
      ghost var c0 := cells;
      assert trail.entries[|trail.entries|..] == [];
      var completed := ScanAll(c0, trail.entries, trail.markers);
      ForwardCheckOK(shape, c0, StopTurn(shape, c0, 0));
      ForwardCheckShrinks(shape, c0, StopTurn(shape, c0, 0));
      if hasSolution {
        ForwardCheckAssigned(shape, c0, StopTurn(shape, c0, 0));
      }
      if !completed {
        return m, false;
      }
      ForwardCheckEliminates(shape, c0);
      m := ModifiedDomains();
      ChangedKeys(shape, c0, dirty, m.Keys);
      ok := Consistent(shape, cells);
    }

    /** Clears every modified flag, before the corrected scan. */
    method ClearFlags()
      modifies this`dirty
      ensures |dirty| == |old(dirty)| && forall j :: 0 <= j < |dirty| ==> !dirty[j]
    {
      dirty := seq(|dirty|, _ => false);
    }

    /** The variable scan of `ForwardCheckingAll`, from the consistent state c0. */
    method ScanAll(ghost c0: seq<Cell>, ghost log0: seq<Entry>, ghost marks0: seq<nat>) returns (completed: bool)
      requires Scanning(c0, log0, marks0) && cells == c0 && ChangedAt(shape, c0, dirty, 0)
      modifies this`cells, this`dirty, trail
      ensures Scanning(c0, log0, marks0)
      ensures cells == ForwardCheck(shape, c0, StopTurn(shape, c0, 0))
      ensures completed == (StopTurn(shape, c0, 0) == |c0|)
      ensures completed ==> ChangedAt(shape, c0, dirty, |c0|)
    {
      ForwardCheckStart(shape, c0);
      var i := 0;
      while i < |cells|
        invariant 0 <= i <= |c0| && Scanning(c0, log0, marks0)
        invariant cells == ForwardCheck(shape, c0, i) && i <= StopTurn(shape, c0, 0)
        invariant ChangedAt(shape, c0, dirty, i)
      {
        var empty := TurnAll(i, c0, log0, marks0);
        if empty {
          return false;
        }
        i := i + 1;
      }
      assert i == |c0|;
      return true;
    }

    /**
      The turn of variable i in the corrected scan: an empty domain stops
      the scan; an assigned variable removes its value from its neighbours.
      No flag is cleared.
     */
    method TurnAll(i: nat, ghost c0: seq<Cell>, ghost log0: seq<Entry>, ghost marks0: seq<nat>) returns (empty: bool)
      requires Scanning(c0, log0, marks0) && i < |c0| && i <= StopTurn(shape, c0, 0)
      requires cells == ForwardCheck(shape, c0, i) && ChangedAt(shape, c0, dirty, i)
      modifies this`cells, this`dirty, trail
      ensures Scanning(c0, log0, marks0)
      ensures empty == (StopTurn(shape, c0, 0) == i)
      ensures !empty ==> cells == ForwardCheck(shape, c0, i + 1) && ChangedAt(shape, c0, dirty, i + 1)
      ensures empty ==> cells == ForwardCheck(shape, c0, i)
    {
      assert cells[i] == Cell(DomAt(shape, c0, i, i), c0[i].val);
      if |cells[i].dom| == 0 {
        StopTurnHere(shape, c0, i);
        return true;
      }
      StopTurnPast(shape, c0, i);
      if cells[i].Assigned() {
        ChangedBegin(shape, c0, dirty, i);
        EliminateAll(i, c0, log0, marks0);
      } else {
        ChangedSkip(shape, c0, dirty, i);
        UnassignedTurn(shape, c0, i);
      }
      return false;
    }

    /** The turn of an assigned variable i in the corrected scan. */
    method EliminateAll(i: nat, ghost c0: seq<Cell>, ghost log0: seq<Entry>, ghost marks0: seq<nat>)
      requires Scanning(c0, log0, marks0) && i < |c0| && c0[i].Assigned()
      requires cells == ForwardCheck(shape, c0, i) && ChangedMid(shape, c0, dirty, i, 0)
      modifies this`cells, this`dirty, trail
      ensures Scanning(c0, log0, marks0)
      ensures cells == ForwardCheck(shape, c0, i + 1) && ChangedAt(shape, c0, dirty, i + 1)
    {
      var curVal := cells[i].val.value;
      assert cells[i] == Cell(DomAt(shape, c0, i, i), c0[i].val);
      MidturnStart(shape, c0, i);
      var t := 0;
      while t < |shape.neighbours[i]|
        invariant 0 <= t <= |shape.neighbours[i]| && curVal == c0[i].val.value
        invariant Scanning(c0, log0, marks0)
        invariant cells == Midturn(shape, c0, i, t) && ChangedMid(shape, c0, dirty, i, t)
      {
        NeighbourInRange(shape, i, t);
        ChangedStep(shape, c0, dirty, i, t);
        EliminateFromNeighbour(i, t, curVal, c0, log0, marks0);
        t := t + 1;
      }
      MidturnEnd(shape, c0, i);
      ChangedEnd(shape, c0, dirty, i);
    }

    /** The trail's markers stay and its log only grows. */
    ghost predicate Extended(log0: seq<Entry>, marks0: seq<nat>)
      reads trail
    {
      trail.markers == marks0 && log0 <= trail.entries
    }

    /**
      `norvigCheck`: on an inconsistent network, fails and changes nothing.
      Otherwise (1) the variables are scanned in storage order as in
      `forwardChecking`, except that the check fails as soon as a domain
      becomes empty; then (2) for each constraint in turn, a value that no
      member can take makes the check fail, and a value that exactly one
      member can take is assigned to every unassigned member holding it,
      each assignment followed by a forward-checking pass. The assignments
      of (2) are not logged on the trail. The map holds exactly the
      variables the check assigned, with their values, and the result is
      that of a last forward-checking pass. Every way of failing leaves an
      empty domain, an inconsistent network, or a value with no place in
      some constraint, so the check passes whenever it ends with none of
      these.
     */
    method NorvigCheck() returns (m: map<nat, int>, ok: bool)
      requires Valid()
      modifies this`cells, this`dirty, trail
      ensures Valid() && Extended(old(trail.entries), old(trail.markers))
      ensures Narrowed(old(cells), cells) && Recorded(old(cells), cells, m)
      ensures ok ==> Consistent(shape, cells) && Eliminated(shape, cells)
      ensures !Consistent(shape, old(cells)) ==>
        m == map[] && !ok && cells == old(cells) && dirty == old(dirty) && trail.entries == old(trail.entries)
      ensures Consistent(shape, old(cells)) && !Survives(shape, old(cells)) ==>
        m == map[] && !ok && Logged(old(trail.entries), old(trail.markers), old(cells))
      ensures ok ==> Survives(shape, old(cells))
      ensures ok ==> Placeable(shape, ForwardCheck(shape, old(cells), |cells|))
      ensures Sound(shape, cells) && Placeable(shape, cells) ==> ok
      ensures ok ==> SinglesFilled(shape, ForwardCheck(shape, old(cells), |cells|), cells)
      ensures Consistent(shape, old(cells)) && Survives(shape, old(cells)) ==>
        SinglesChecked(shape, ForwardCheck(shape, old(cells), |cells|)) == Sweep(cells, !ok)
    {
      if !Consistent(shape, cells) {
        return map[], false;
      }
      m, ok := NorvigConsistent();
    }

    /** `norvigCheck` on a network that is consistent on entry. */
    method NorvigConsistent() returns (m: map<nat, int>, ok: bool)
      requires Valid() && Consistent(shape, cells)
      modifies this`cells, this`dirty, trail
      ensures Valid() && Extended(old(trail.entries), old(trail.markers))
      ensures Narrowed(old(cells), cells) && Recorded(old(cells), cells, m)
      ensures ok ==> Consistent(shape, cells) && Eliminated(shape, cells)
      ensures !Survives(shape, old(cells)) ==>
        m == map[] && !ok && Logged(old(trail.entries), old(trail.markers), old(cells))
      ensures ok ==> Survives(shape, old(cells))
      ensures ok ==> Placeable(shape, ForwardCheck(shape, old(cells), |cells|))
      ensures Sound(shape, cells) && Placeable(shape, cells) ==> ok
      ensures ok ==> SinglesFilled(shape, ForwardCheck(shape, old(cells), |cells|), cells)
      ensures Survives(shape, old(cells)) ==>
        SinglesChecked(shape, ForwardCheck(shape, old(cells), |cells|)) == Sweep(cells, !ok)
    {
      ghost var c0 := cells;
      var survived := NorvigEliminate();
      if !survived {
        return map[], false;
      }
      ForwardCheckEliminates(shape, c0);
      m, ok := HiddenSingles(c0);
    }

    /** What holds at every step of the elimination of `norvigCheck` from the consistent state c0. */
    ghost predicate Pruning(c0: seq<Cell>, log0: seq<Entry>, marks0: seq<nat>)
      reads this, trail
    {
      Scanning(c0, log0, marks0) && Pruned(c0)
    }

    /** The state is valid, narrower than c0 with the same assignments. */
    ghost predicate Pruned(c0: seq<Cell>)
      reads this
    {
      && StateOK(shape, cells) && Narrowed(c0, cells) && SameVals(c0, cells)
      && (hasSolution ==> AllAssigned(cells))
    }

    /**
      Step (1) of `norvigCheck` on a consistent network: it completes
      exactly when a full forward-checking pass leaves no domain empty,
      and then leaves the state that pass computes; when it stops, the
      domain that stopped it is left empty.
     */
    method NorvigEliminate() returns (survived: bool)
      requires Valid() && Consistent(shape, cells)
      modifies this`cells, this`dirty, trail
      ensures Valid() && Logged(old(trail.entries), old(trail.markers), old(cells))
      ensures Narrowed(old(cells), cells) && SameVals(old(cells), cells)
      ensures survived == Survives(shape, old(cells))
      ensures !survived ==> !Sound(shape, cells)
      ensures survived ==> cells == ForwardCheck(shape, old(cells), |cells|)
    {
      ghost var c0 := cells;
      assert trail.entries[|trail.entries|..] == [];
      var stopped := Prune(c0, trail.entries, trail.markers);
      if !stopped {
        AliveEndSurvives(shape, c0);
      }
      survived := !stopped;
    }

    /** The variable scan of step (1), from the consistent state c0. */
    method Prune(ghost c0: seq<Cell>, ghost log0: seq<Entry>, ghost marks0: seq<nat>) returns (stopped: bool)
      requires Pruning(c0, log0, marks0) && cells == c0
      modifies this`cells, this`dirty, trail
      ensures Pruning(c0, log0, marks0)
      ensures stopped ==> !Survives(shape, c0) && !Sound(shape, cells)
      ensures !stopped ==> cells == ForwardCheck(shape, c0, |c0|) && AliveAt(shape, c0, |c0|)
    {
      AliveStart(shape, c0);
      ForwardCheckStart(shape, c0);
      var i := 0;
      stopped := false;
      while i < |cells| && !stopped
        invariant 0 <= i <= |c0| && Pruning(c0, log0, marks0)
        invariant !stopped ==> cells == ForwardCheck(shape, c0, i) && AliveAt(shape, c0, i)
        invariant stopped ==> !Survives(shape, c0) && !Sound(shape, cells)
      {
        stopped := NorvigTurn(i, c0, log0, marks0);
        i := i + 1;
      }
      assert !stopped ==> i == |c0|;
    }

    /**
      The turn of variable i in step (1): its modified flag is cleared, an
      empty domain fails the check, and an assigned variable removes its
      value from its neighbours.
     */
    method NorvigTurn(i: nat, ghost c0: seq<Cell>, ghost log0: seq<Entry>, ghost marks0: seq<nat>) returns (stopped: bool)
      requires Pruning(c0, log0, marks0) && i < |c0|
      requires cells == ForwardCheck(shape, c0, i) && AliveAt(shape, c0, i)
      modifies this`cells, this`dirty, trail
      ensures Pruning(c0, log0, marks0)
      ensures stopped ==> !Survives(shape, c0) && !Sound(shape, cells)
      ensures !stopped ==> cells == ForwardCheck(shape, c0, i + 1) && AliveAt(shape, c0, i + 1)
    {
      dirty := dirty[i := false];
      assert cells[i] == Cell(DomAt(shape, c0, i, i), c0[i].val);
      if |cells[i].dom| == 0 {
        DiesAtTurn(shape, c0, i);
        return true;
      }
      if cells[i].Assigned() {
        AliveBegin(shape, c0, i);
        stopped := NorvigNeighbours(i, c0, log0, marks0);
      } else {
        AliveSkip(shape, c0, i);
        UnassignedTurn(shape, c0, i);
        stopped := false;
      }
    }

    /** The assigned variable i removes its value from its neighbours, stopping at an emptied domain. */
    method NorvigNeighbours(i: nat, ghost c0: seq<Cell>, ghost log0: seq<Entry>, ghost marks0: seq<nat>) returns (stopped: bool)
      requires Pruning(c0, log0, marks0) && i < |c0| && c0[i].Assigned()
      requires cells == ForwardCheck(shape, c0, i) && AliveMid(shape, c0, i, 0)
      modifies this`cells, this`dirty, trail
      ensures Pruning(c0, log0, marks0)
      ensures stopped ==> !Survives(shape, c0) && !Sound(shape, cells)
      ensures !stopped ==> cells == ForwardCheck(shape, c0, i + 1) && AliveAt(shape, c0, i + 1)
    {
      var curVal := cells[i].val.value;
      MidturnStart(shape, c0, i);
      var t := 0;
      while t < |shape.neighbours[i]|
        invariant 0 <= t <= |shape.neighbours[i]| && curVal == c0[i].val.value
        invariant Pruning(c0, log0, marks0)
        invariant cells == Midturn(shape, c0, i, t) && AliveMid(shape, c0, i, t)
      {
        stopped := NorvigNeighbour(i, t, curVal, c0, log0, marks0);
        if stopped {
          return;
        }
        t := t + 1;
      }
      MidturnEnd(shape, c0, i);
      AliveEnd(shape, c0, i);
      stopped := false;
    }

    /**
      Neighbour t of the assigned variable i in step (1): if it holds i's
      value, it is logged, flagged and loses the value, and the check fails
      when nothing is left.
     */
    method NorvigNeighbour(i: nat, t: nat, curVal: int, ghost c0: seq<Cell>, ghost log0: seq<Entry>, ghost marks0: seq<nat>)
      returns (stopped: bool)
      requires Pruning(c0, log0, marks0)
      requires i < |c0| && c0[i].Assigned() && curVal == c0[i].val.value && t < |shape.neighbours[i]|
      requires cells == Midturn(shape, c0, i, t) && AliveMid(shape, c0, i, t)
      modifies this`cells, this`dirty, trail
      ensures Pruning(c0, log0, marks0) && cells == Midturn(shape, c0, i, t + 1)
      ensures stopped ==> !Survives(shape, c0) && !Sound(shape, cells)
      ensures !stopped ==> AliveMid(shape, c0, i, t + 1)
    {
      var j := shape.neighbours[i][t];
      NeighbourInRange(shape, i, t);
      var removed := curVal in cells[j].dom;
      PruneStep(i, t, curVal, c0, log0, marks0);
      if removed && |cells[j].dom| == 0 {
        DiesMidturn(shape, c0, i, t + 1, j);
        return true;
      }
      PartialStep(shape, c0, i, t, j);
      AliveStep(shape, c0, i, t);
      return false;
    }

    /** Neighbour t of i is logged, flagged and loses i's value, if it holds it. */
    method PruneStep(i: nat, t: nat, curVal: int, ghost c0: seq<Cell>, ghost log0: seq<Entry>, ghost marks0: seq<nat>)
      requires Pruning(c0, log0, marks0)
      requires i < |c0| && c0[i].Assigned() && curVal == c0[i].val.value && t < |shape.neighbours[i]|
      requires cells == Midturn(shape, c0, i, t)
      modifies this`cells, this`dirty, trail
      ensures Pruning(c0, log0, marks0) && cells == Midturn(shape, c0, i, t + 1)
    {
      MidturnOK(shape, c0, i, t + 1);
      MidturnShrinks(shape, c0, i, t + 1);
      PruneRemove(i, t, curVal, c0, log0, marks0);
    }

    /** The removal of `PruneStep`, as a step of the scan from c0. */
    method PruneRemove(i: nat, t: nat, curVal: int, ghost c0: seq<Cell>, ghost log0: seq<Entry>, ghost marks0: seq<nat>)
      requires Scanning(c0, log0, marks0)
      requires i < |c0| && c0[i].Assigned() && curVal == c0[i].val.value && t < |shape.neighbours[i]|
      requires cells == Midturn(shape, c0, i, t)
      modifies this`cells, this`dirty, trail
      ensures Scanning(c0, log0, marks0) && cells == Midturn(shape, c0, i, t + 1)
    {
      var j := shape.neighbours[i][t];
      NeighbourInRange(shape, i, t);
      MidturnStep(shape, c0, i, t);
      MidturnOK(shape, c0, i, t);
      if curVal in cells[j].dom {
        LogAndRemove(j, curVal, log0, marks0, c0);
      }
    }

    /**
      Step (2) of `norvigCheck`, from the state step (1) left: every
      constraint in turn is searched for values with no place or a single
      place, then a last forward-checking pass gives the result. Passing
      means that in the state step (1) left, every value 1..n had a place
      in every constraint, and every value with a single place there found
      that variable assigned (to that value, unless an earlier placement in
      the same constraint took the variable first). Failing leaves a value
      with no place, an empty domain or an inconsistent network.
     */
    method HiddenSingles(ghost c0: seq<Cell>) returns (m: map<nat, int>, ok: bool)
      requires Valid() && Narrowed(c0, cells) && Recorded(c0, cells, map[])
      requires Eliminated(shape, cells)
      modifies this`cells, this`dirty, trail
      ensures Valid() && Extended(old(trail.entries), old(trail.markers))
      ensures Narrowed(c0, cells) && Recorded(c0, cells, m)
      ensures ok ==> Consistent(shape, cells) && Eliminated(shape, cells)
      ensures ok ==> Placeable(shape, old(cells))
      ensures Sound(shape, cells) && Placeable(shape, cells) ==> ok
      ensures ok ==> SinglesFilled(shape, old(cells), cells)
      ensures SinglesChecked(shape, old(cells)) == Sweep(cells, !ok)
    {
      var counter := new int[shape.n + 1](_ => 0);
      var failed;
      m, failed := SinglesPass(counter, c0);
      if failed {
        return m, false;
      }
      ghost var placed := cells;
      ok := LastCheck();
      NarrowedTrans(c0, placed, cells);
      if ok {
        SinglesFilledKept(shape, old(cells), placed, cells);
      }
    }

    /** The last `forwardChecking()` of `norvigCheck`, whose map is dropped. */
    method LastCheck() returns (ok: bool)
      requires Valid()
      modifies this`cells, this`dirty, trail
      ensures Valid() && Extended(old(trail.entries), old(trail.markers)) && Narrowed(old(cells), cells)
      ensures cells == Checked(shape, old(cells)) && ok == CheckPasses(shape, old(cells))
      ensures ok ==> Consistent(shape, cells) && Eliminated(shape, cells) && Sound(shape, old(cells))
      ensures Sound(shape, cells) ==> ok
    {
      ghost var c0 := cells;
      var _, fc := ForwardChecking();
      ok := fc;
      if ok {
        CompletedSoundStep(shape, c0);
      }
    }

    /**
      The constraints of step (2) in order, until one of them fails; a
      failure leaves a value with no place in some constraint.
     */
    method SinglesPass(counter: array<int>, ghost c0: seq<Cell>) returns (m: map<nat, int>, failed: bool)
      requires Valid() && counter.Length == shape.n + 1
      requires Narrowed(c0, cells) && Recorded(c0, cells, map[]) && Settled(shape, cells)
      modifies this`cells, this`dirty, trail, counter
      ensures Valid() && Extended(old(trail.entries), old(trail.markers))
      ensures Narrowed(c0, cells) && Recorded(c0, cells, m) && Settled(shape, cells)
      ensures !failed ==> Placeable(shape, old(cells))
      ensures failed ==> !Placeable(shape, cells)
      ensures !failed && Sound(shape, cells) ==> SinglesFilled(shape, old(cells), cells)
      ensures SinglesFrom(shape, old(cells), 0) == Sweep(cells, failed)
    {
      ghost var start, log0, marks0 := cells, trail.entries, trail.markers;
      m := map[];
      var k := 0;
      while k < |shape.constraints|
        invariant 0 <= k <= |shape.constraints|
        invariant Valid() && Extended(log0, marks0) && Sweeping(k, m, c0, start)
        invariant SinglesFrom(shape, start, 0) == SinglesFrom(shape, cells, k)
      {
        m, failed := PassConstraint(k, counter, m, c0, start);
        if failed {
          return;
        }
        k := k + 1;
      }
      failed := false;
    }

    /**
      What holds before constraint k in the loop of `SinglesPass`, which
      started from `start`: domains only narrowed, the placements recorded,
      every value of the earlier constraints had a holder in `start`, and,
      while the network is sound, their single holders are assigned.
     */
    ghost predicate Sweeping(k: nat, m: map<nat, int>, c0: seq<Cell>, start: seq<Cell>)
      reads this
      requires k <= |shape.constraints|
    {
      && Narrowed(start, cells) && Narrowed(c0, cells) && Recorded(c0, cells, m) && Settled(shape, cells)
      && (forall k', z :: 0 <= k' < k && 1 <= z <= shape.n ==> CountHolding(start, shape.constraints[k'], z) > 0)
      && (Sound(shape, cells) ==>
            forall k' :: 0 <= k' < k ==> PlacedBelow(start, cells, shape.constraints[k'], shape.n + 1))
    }

    /** Constraint k in the loop of `SinglesPass`, which started from the state `start`. */
    method PassConstraint(k: nat, counter: array<int>, m0: map<nat, int>, ghost c0: seq<Cell>, ghost start: seq<Cell>)
      returns (m: map<nat, int>, failed: bool)
      requires Valid() && counter.Length == shape.n + 1 && k < |shape.constraints|
      requires Sweeping(k, m0, c0, start)
      modifies this`cells, this`dirty, trail, counter
      ensures Valid() && Extended(old(trail.entries), old(trail.markers))
      ensures Narrowed(c0, cells) && Recorded(c0, cells, m) && Settled(shape, cells)
      ensures failed ==> !Placeable(shape, cells) && SinglesFrom(shape, old(cells), k) == Sweep(cells, true)
      ensures !failed ==> Sweeping(k + 1, m, c0, start)
      ensures !failed ==> SinglesFrom(shape, old(cells), k) == SinglesFrom(shape, cells, k + 1)
    {
      ghost var before := cells;
      m, failed := ConstraintSingles(k, counter, m0, c0);
      NarrowedTrans(start, before, cells);
      if failed {
        return;
      }
      forall z | 1 <= z <= shape.n
        ensures CountHolding(start, shape.constraints[k], z) > 0
      {
        CountHoldingMono(start, before, shape.constraints[k], z);
      }
      if Sound(shape, cells) {
        SoundBack(shape, before, cells);
        forall k' | 0 <= k' < k ensures PlacedBelow(start, cells, shape.constraints[k'], shape.n + 1) {
          PlacedBelowKept(start, before, cells, shape.constraints[k'], shape.n + 1);
        }
        PlacedFromStart(start, before, cells, shape.constraints[k], shape.n);
      }
    }

    /**
      One constraint in step (2): the values 1..n are counted over its
      members' domains; a value no member holds fails the check, and a
      value exactly one member holds is placed. The check fails exactly
      when some value had no holder when the constraint came up. The counts
      are not refreshed after a placement, so if the network is still sound
      at the end, every value with a single holder at the start finds that
      holder assigned, but not necessarily to that value.
     */
    method ConstraintSingles(k: nat, counter: array<int>, m0: map<nat, int>, ghost c0: seq<Cell>)
      returns (m: map<nat, int>, failed: bool)
      requires Valid() && k < |shape.constraints| && counter.Length == shape.n + 1
      requires Narrowed(c0, cells) && Recorded(c0, cells, m0) && Settled(shape, cells)
      modifies this`cells, this`dirty, trail, counter
      ensures Valid() && Extended(old(trail.entries), old(trail.markers))
      ensures Narrowed(old(cells), cells) && Narrowed(c0, cells) && Recorded(c0, cells, m) && Settled(shape, cells)
      ensures failed <==> exists z :: 1 <= z <= shape.n && CountHolding(old(cells), shape.constraints[k], z) == 0
      ensures failed ==> exists z :: 1 <= z <= shape.n && CountHolding(cells, shape.constraints[k], z) == 0
      ensures !failed && Sound(shape, cells) ==>
        PlacedBelow(old(cells), cells, shape.constraints[k], shape.n + 1)
      ensures var g := GapFrom(old(cells), shape.constraints[k], 1, shape.n);
        (failed <==> g <= shape.n) && cells == SinglesUpTo(shape, old(cells), shape.constraints[k], g)
    {
      CountCandidates(k, counter);
      ghost var start, log0, marks0 := cells, trail.entries, trail.markers;
      m := m0;
      var z := 1;
      while z < counter.Length
        invariant 1 <= z <= counter.Length
        invariant forall x :: 1 <= x <= shape.n ==> counter[x] == CountHolding(start, shape.constraints[k], x)
        invariant forall x :: 1 <= x < z ==> CountHolding(start, shape.constraints[k], x) != 0
        invariant Valid() && Extended(log0, marks0) && Singling(k, z, m, c0, start)
        invariant cells == SinglesUpTo(shape, start, shape.constraints[k], z)
        invariant GapFrom(start, shape.constraints[k], 1, shape.n) == GapFrom(start, shape.constraints[k], z, shape.n)
      {
        if counter[z] == 0 {
          CountHoldingMono(start, cells, shape.constraints[k], z);
          return m, true;
        }
        ghost var seen := CountHolding(start, shape.constraints[k], z);
        assert seen == counter[z] != 0;
        m := SingleValue(k, z, counter[z], m, c0, start);
        z := z + 1;
      }
      failed := false;
    }

    /**
      What holds before value z of constraint k, which was counted at
      `start`: domains only narrowed, the placements recorded, and, while
      the network is sound, every earlier single holder assigned and every
      later value still in place.
     */
    ghost predicate Singling(k: nat, z: int, m: map<nat, int>, c0: seq<Cell>, start: seq<Cell>)
      reads this
      requires k < |shape.constraints|
    {
      && Narrowed(start, cells) && Narrowed(c0, cells) && Recorded(c0, cells, m) && Settled(shape, cells)
      && (Sound(shape, cells) ==>
            KeepsFrom(start, cells, z) && PlacedBelow(start, cells, shape.constraints[k], z))
    }

    /** The value z of constraint k, counted `count` times at `start`: placed when the count is one. */
    method SingleValue(k: nat, z: int, count: int, m0: map<nat, int>, ghost c0: seq<Cell>, ghost start: seq<Cell>)
      returns (m: map<nat, int>)
      requires Valid() && k < |shape.constraints| && count == CountHolding(start, shape.constraints[k], z)
      requires Singling(k, z, m0, c0, start)
      requires |start| == shape.Size() && cells == SinglesUpTo(shape, start, shape.constraints[k], z)
      modifies this`cells, this`dirty, trail
      ensures Valid() && Extended(old(trail.entries), old(trail.markers)) && Singling(k, z + 1, m, c0, start)
      ensures cells == SinglesUpTo(shape, start, shape.constraints[k], z + 1)
    {
      m := m0;
      ghost var before := cells;
      if count == 1 {
        CountHoldingMono(start, cells, shape.constraints[k], z);
        m := PlaceValue(k, z, m, c0);
      }
      SinglesStep(shape, start, before, cells, shape.constraints[k], z);
      NarrowedTrans(start, before, cells);
    }

    /** `counter[z]` becomes the number of members of constraint k holding z, for z in 1..n. */
    method CountCandidates(k: nat, counter: array<int>)
      requires shape.WellFormed() && StateOK(shape, cells)
      requires k < |shape.constraints| && counter.Length == shape.n + 1
      modifies counter
      ensures forall x :: 1 <= x <= shape.n ==> counter[x] == CountHolding(cells, shape.constraints[k], x)
    {
      var c := 1;
      while c <= shape.n
        invariant 1 <= c <= shape.n + 1
        invariant forall x :: 1 <= x < c ==> counter[x] == 0
      {
        counter[c] := 0;
        c := c + 1;
      }
      var vars := shape.constraints[k];
      var t := 0;
      while t < |vars|
        invariant 0 <= t <= |vars|
        invariant forall x :: 1 <= x <= shape.n ==> counter[x] == CountHolding(cells, vars[..t], x)
      {
        var j := vars[t];
        assert j in shape.constraints[k];
        assert CellOK(cells[j], shape.n);
        CountValues(cells[j].dom, counter);
        assert vars[..t + 1][..t] == vars[..t];
        t := t + 1;
      }
      assert vars[..t] == vars;
    }

    /** `counter[z]++` for every value z of the domain d. */
    method CountValues(d: set<int>, counter: array<int>)
      requires forall v :: v in d ==> 1 <= v < counter.Length
      modifies counter
      ensures forall x :: 0 <= x < counter.Length ==> counter[x] == old(counter[x]) + if x in d then 1 else 0
    {
      var rest := d;
      while rest != {}
        invariant rest <= d
        invariant forall x :: 0 <= x < counter.Length ==>
          counter[x] == old(counter[x]) + if x in d && x !in rest then 1 else 0
        decreases |rest|
      {
        HasMember(rest);
        var v :| v in rest;
        RemoveCard(rest, v);
        counter[v] := counter[v] + 1;
        rest := rest - {v};
      }
    }

    /**
      The value z has a single place in constraint k: every unassigned
      member still holding z is assigned z. The count was one when the
      constraint was counted and domains have only narrowed since, so at
      most one member still holds z, and that member, if unassigned, is
      the one assigned.
     */
    method PlaceValue(k: nat, z: int, m0: map<nat, int>, ghost c0: seq<Cell>) returns (m: map<nat, int>)
      requires Valid() && k < |shape.constraints|
      requires Narrowed(c0, cells) && Recorded(c0, cells, m0)
      requires CountHolding(cells, shape.constraints[k], z) <= 1
      modifies this`cells, this`dirty, trail
      ensures Valid() && Extended(old(trail.entries), old(trail.markers))
      ensures Narrowed(old(cells), cells) && Narrowed(c0, cells) && Recorded(c0, cells, m)
      ensures Placing(shape, old(cells), cells, shape.constraints[k], z)
      ensures cells == PlaceAll(shape, old(cells), shape.constraints[k], z)
      ensures forall j :: j in shape.constraints[k] && FreeHolder(old(cells), shape.constraints[k], z, j) ==>
        m == m0[j := z]
      ensures (forall j :: j in shape.constraints[k] ==> !FreeHolder(old(cells), shape.constraints[k], z, j)) ==>
        m == m0
    {
      ghost var start, log0, marks0 := cells, trail.entries, trail.markers;
      var vars := shape.constraints[k];
      m := m0;
      var t := 0;
      while t < |vars|
        invariant 0 <= t <= |vars|
        invariant Valid() && Extended(log0, marks0)
        invariant Narrowed(start, cells) && Narrowed(c0, cells) && Recorded(c0, cells, m)
        invariant cells == PlaceAll(shape, start, vars[..t], z)
      {
        var j := vars[t];
        assert vars[..t + 1][..t] == vars[..t];
        assert j in shape.constraints[k];
        if !cells[j].Assigned() && z in cells[j].dom {
          ghost var before := cells;
          ghost var m1 := m;
          m := AssignAndCheck(j, z, m);
          NarrowedTrans(start, before, cells);
          NarrowedTrans(c0, before, cells);
          RecordedPlace(c0, before, cells, m1, j, z);
        }
        t := t + 1;
      }
      assert vars[..t] == vars;
      forall p | 0 <= p < |vars| ensures vars[p] < |start| {
        assert vars[p] in shape.constraints[k];
      }
      PlaceAllPlacing(shape, start, vars, z);
      PlacedMap(shape, c0, start, cells, m0, vars, z, m);
    }

    /**
      `m.insert(j, z)`, then `assignValue(z)` on j, which is not logged on
      the trail, then a forward-checking pass whose result is ignored.
     */
    method AssignAndCheck(j: nat, z: int, m0: map<nat, int>) returns (m: map<nat, int>)
      requires Valid() && j < |cells| && !cells[j].Assigned() && z in cells[j].dom && j !in m0
      modifies this`cells, this`dirty, trail
      ensures m == m0[j := z]
      ensures Valid() && Extended(old(trail.entries), old(trail.markers))
      ensures cells == Placed(shape, old(cells), j, z)
    {
      ghost var before := cells;
      m := m0[j := z];
      SetValue(j, z);
      var _, _ := ForwardChecking();
      PlacedByCheck(shape, before, j, z, cells);
    }

    /** `assignValue(z)` on the unassigned variable j, which holds z; nothing is logged. */
    method SetValue(j: nat, z: int)
      requires Valid() && j < |cells| && !cells[j].Assigned() && z in cells[j].dom
      modifies this`cells
      ensures Valid() && cells == old(cells)[j := AssignValue(z)]
    {
      assert CellOK(cells[j], shape.n);
      cells := cells[j := AssignValue(z)];
    }

    /**
      What holds at every step of the arc-consistency scan that started
      from c0: valid states, every change logged, domains only narrowed and
      no assignment made.
     */
    ghost predicate Arcing(c0: seq<Cell>, log0: seq<Entry>, marks0: seq<nat>)
      reads this, trail
    {
      && shape.WellFormed() && StateOK(shape, cells) && |dirty| == |cells|
      && LogValid() && Logged(log0, marks0, c0) && Narrowed(c0, cells)
      && (forall j :: 0 <= j < |cells| ==> cells[j].val == c0[j].val)
      && (hasSolution ==> AllAssigned(cells))
    }

    /** The variables queued for a forced assignment: unassigned, with one value left. */
    ghost predicate Pending(toAssign: seq<nat>)
      reads this
    {
      forall a :: a in toAssign ==> a < |cells| && !cells[a].Assigned() && |cells[a].dom| == 1
    }

    /**
      `arcConsistency`: over the constraints with a modified member, every
      assigned member removes its value from its neighbours, logging each
      one on the trail first; a neighbour whose domain is just that value
      makes the network inconsistent and stops the pass, and a neighbour
      left with one value is queued. The queued variables are then
      assigned (logged first) and the pass runs again; the recursion
      strictly lowers the number of unassigned variables. The result is
      exactly the consistency of the network it leaves.
     */
    method ArcConsistency() returns (ok: bool)
      requires Valid()
      modifies this`cells, this`dirty, trail
      ensures Valid()
      ensures Logged(old(trail.entries), old(trail.markers), old(cells))
      ensures Narrowed(old(cells), cells) && NoneEmptied(old(cells), cells) && FlagsGrown(old(dirty), dirty)
      ensures ok == Consistent(shape, cells)
      ensures ok ==> forall q :: 0 <= q < |shape.constraints| && Touched(shape.constraints[q], old(dirty)) ==>
        ArcClean(shape, cells, shape.constraints[q])
      ensures ok ==> forall a :: 0 <= a < |cells| && |old(cells)[a].dom| >= 2 && |cells[a].dom| == 1 ==>
        cells[a].Assigned()
      ensures Justified(shape, old(cells), cells) && ForcedOnly(old(cells), cells)
      decreases |Unassigned(cells)|
    {
      ghost var c0, log0, marks0, d0 := cells, trail.entries, trail.markers, dirty;
      assert trail.entries[|trail.entries|..] == [];
      var rmc := ModifiedConstraints(shape, dirty, |shape.constraints|);
      var toAssign, failed := ArcRound(rmc, c0, log0, marks0);
      if failed {
        return false;
      }
      if toAssign != [] {
        ok := ArcForced(toAssign, c0, log0, marks0, d0);
        return ok;
      }
      ok := Consistent(shape, cells);
      forall q | 0 <= q < |shape.constraints| && Touched(shape.constraints[q], d0)
        ensures ArcClean(shape, cells, shape.constraints[q])
      {
        assert q in rmc;
      }
    }

    /**
      One round: the listed constraints in order, until one of them finds
      a conflict. A round without conflict leaves every listed constraint
      clean.
     */
    method ArcRound(rmc: seq<nat>, ghost c0: seq<Cell>, ghost log0: seq<Entry>, ghost marks0: seq<nat>)
      returns (toAssign: seq<nat>, failed: bool)
      requires Arcing(c0, log0, marks0) && cells == c0
      requires forall q :: q in rmc ==> q < |shape.constraints|
      modifies this`cells, this`dirty, trail
      ensures Arcing(c0, log0, marks0) && Pending(toAssign) && FlagsGrown(old(dirty), dirty)
      ensures ArcStep(c0, cells, [], toAssign)
      ensures failed ==> !Consistent(shape, cells)
      ensures !failed ==> forall q :: q in rmc ==> ArcClean(shape, cells, shape.constraints[q])
      ensures !failed ==> Stripped(shape, c0, cells, Members(shape, rmc))
      ensures Justified(shape, c0, cells)
    {
      ghost var d0 := dirty;
      toAssign := [];
      ArcStepNone(cells, toAssign);
      StrippedNone(shape, cells);
      forall p | 0 <= p < |rmc|
        ensures rmc[p] < |shape.constraints|
      {
        assert rmc[p] in rmc;
      }
      var i := 0;
      while i < |rmc|
        invariant 0 <= i <= |rmc| && Arcing(c0, log0, marks0) && Pending(toAssign)
        invariant ArcStep(c0, cells, [], toAssign) && FlagsGrown(d0, dirty)
        invariant forall p :: 0 <= p < |rmc| ==> rmc[p] < |shape.constraints|
        invariant forall p :: 0 <= p < i ==> ArcClean(shape, cells, shape.constraints[rmc[p]])
        invariant Stripped(shape, c0, cells, Members(shape, rmc[..i]))
      {
        ghost var before, queue := cells, toAssign;
        toAssign, failed := ArcConstraint(rmc[i], toAssign, c0, log0, marks0);
        ArcStepTrans(c0, before, cells, [], queue, toAssign);
        StrippedJustified(shape, c0, before, Members(shape, rmc[..i]));
        if failed {
          JustifiedTrans(shape, c0, before, cells);
          return;
        }
        assert rmc[..i + 1][..i] == rmc[..i];
        StrippedTrans(shape, c0, before, cells, Members(shape, rmc[..i]), shape.constraints[rmc[i]]);
        forall p | 0 <= p < i
          ensures ArcClean(shape, cells, shape.constraints[rmc[p]])
        {
          ArcCleanKept(shape, before, cells, shape.constraints[rmc[p]]);
        }
        i := i + 1;
      }
      assert rmc[..i] == rmc;
      StrippedJustified(shape, c0, cells, Members(shape, rmc));
      failed := false;
    }

    /**
      The end of a round that queued variables: they are assigned and the
      pass runs again.
     */
    method ArcForced(toAssign: seq<nat>, ghost c0: seq<Cell>, ghost log0: seq<Entry>, ghost marks0: seq<nat>,
                     ghost d0: seq<bool>) returns (ok: bool)
      requires Arcing(c0, log0, marks0) && Pending(toAssign) && toAssign != []
      requires ArcStep(c0, cells, [], toAssign) && FlagsGrown(d0, dirty) && Justified(shape, c0, cells)
      modifies this`cells, this`dirty, trail
      ensures Valid() && Logged(log0, marks0, c0)
      ensures Narrowed(c0, cells) && NoneEmptied(c0, cells) && FlagsGrown(d0, dirty)
      ensures ok == Consistent(shape, cells)
      ensures ok ==> forall q :: 0 <= q < |shape.constraints| && Touched(shape.constraints[q], d0) ==>
        ArcClean(shape, cells, shape.constraints[q])
      ensures ok ==> forall a :: 0 <= a < |cells| && |c0[a].dom| >= 2 && |cells[a].dom| == 1 ==>
        cells[a].Assigned()
      ensures Justified(shape, c0, cells) && ForcedOnly(c0, cells)
      decreases |Unassigned(c0)|, 0
    {
      assert Unassigned(cells) == Unassigned(c0);
      ghost var cr := cells;
      ArcAssign(toAssign, c0, log0, marks0);
      ghost var c1, log1, d1 := cells, trail.entries, dirty;
      ForcedKeeps(shape, c0, cr, toAssign);
      JustifiedTrans(shape, c0, cr, c1);
      ok := ArcConsistency();
      GrownTrans(cells, trail.entries, log1, c1, log0, c0);
      NarrowedTrans(c0, c1, cells);
      JustifiedTrans(shape, c0, c1, cells);
      ForcedOnlyTrans(c0, c1, cells);
      if ok {
        ForcedAssigned(c0, cr, c1, cells, toAssign);
        forall q | 0 <= q < |shape.constraints| && Touched(shape.constraints[q], d0)
          ensures Touched(shape.constraints[q], d1)
        {
          TouchedGrown(shape.constraints[q], d0, d1);
        }
      }
    }

    /**
      One modified constraint: each assigned member removes its value from
      its neighbours. When no conflict stops it, the constraint leaves
      exactly those values removed and no member's value in a neighbour.
     */
    method ArcConstraint(q: nat, toAssign0: seq<nat>, ghost c0: seq<Cell>, ghost log0: seq<Entry>, ghost marks0: seq<nat>)
      returns (toAssign: seq<nat>, failed: bool)
      requires Arcing(c0, log0, marks0) && Pending(toAssign0) && q < |shape.constraints|
      modifies this`cells, this`dirty, trail
      ensures Arcing(c0, log0, marks0) && Pending(toAssign) && FlagsGrown(old(dirty), dirty)
      ensures ArcStep(old(cells), cells, toAssign0, toAssign)
      ensures failed ==> !Consistent(shape, cells)
      ensures !failed ==> Stripped(shape, old(cells), cells, shape.constraints[q])
      ensures !failed ==> ArcClean(shape, cells, shape.constraints[q])
      ensures Justified(shape, old(cells), cells)
    {
      var vars := shape.constraints[q];
      ghost var start, d0 := cells, dirty;
      toAssign := toAssign0;
      ArcStepNone(cells, toAssign0);
      StrippedNone(shape, cells);
      var j := 0;
      while j < |vars|
        invariant 0 <= j <= |vars| && Arcing(c0, log0, marks0) && Pending(toAssign)
        invariant ArcStep(start, cells, toAssign0, toAssign) && FlagsGrown(d0, dirty)
        invariant Stripped(shape, start, cells, vars[..j])
      {
        var x := vars[j];
        assert x in shape.constraints[q];
        assert vars[..j + 1] == vars[..j] + [x];
        StrippedStep(shape, start, cells, vars[..j], x);
        if cells[x].Assigned() {
          ghost var before, queue := cells, toAssign;
          toAssign, failed := ArcNeighbours(x, toAssign, c0, log0, marks0);
          ArcStepTrans(start, before, cells, toAssign0, queue, toAssign);
          if failed {
            StrippedJustified(shape, start, before, vars[..j]);
            JustifiedTrans(shape, start, before, cells);
            return;
          }
        }
        j := j + 1;
      }
      assert vars[..j] == vars;
      StrippedClean(shape, start, cells, vars);
      StrippedJustified(shape, start, cells, vars);
      failed := false;
    }

    /**
      The assigned variable x removes its value from each of its
      neighbours. It fails exactly when some neighbour's domain is just that
      value, and otherwise every neighbour has lost the value.
     */
    method ArcNeighbours(x: nat, toAssign0: seq<nat>, ghost c0: seq<Cell>, ghost log0: seq<Entry>, ghost marks0: seq<nat>)
      returns (toAssign: seq<nat>, failed: bool)
      requires Arcing(c0, log0, marks0) && Pending(toAssign0) && x < |cells| && cells[x].Assigned()
      modifies this`cells, this`dirty, trail
      ensures Arcing(c0, log0, marks0) && Pending(toAssign) && FlagsGrown(old(dirty), dirty)
      ensures ArcStep(old(cells), cells, toAssign0, toAssign)
      ensures failed ==> !Consistent(shape, cells)
      ensures var ns, v := shape.neighbours[x], old(cells)[x].val.value;
        failed <==> exists t :: 0 <= t < |ns| && HoldsOnly(old(cells), ns[t], v)
      ensures !failed ==> cells == RemovedAll(old(cells), shape.neighbours[x], old(cells)[x].val.value)
      ensures Justified(shape, old(cells), cells)
    {
      var neighbours := shape.neighbours[x];
      var assignedValue := cells[x].val.value;
      ghost var start, d0 := cells, dirty;
      toAssign := toAssign0;
      ArcStepNone(cells, toAssign0);
      RemovedNone(cells, assignedValue);
      var k := 0;
      while k < |neighbours|
        invariant 0 <= k <= |neighbours| && Arcing(c0, log0, marks0) && Pending(toAssign)
        invariant ArcStep(start, cells, toAssign0, toAssign) && FlagsGrown(d0, dirty)
        invariant cells == RemovedAll(start, neighbours[..k], assignedValue)
        invariant Spared(start, neighbours, k, assignedValue)
      {
        RemovedJustified(shape, start, neighbours[..k], x, assignedValue);
        toAssign, failed := ArcNeighboursStep(x, k, assignedValue, start, toAssign0, toAssign, c0, log0, marks0);
        if failed {
          return;
        }
        k := k + 1;
      }
      assert neighbours[..k] == neighbours;
      RemovedJustified(shape, start, neighbours, x, assignedValue);
      failed := false;
    }

    /** Neighbour k in the loop of `ArcNeighbours`, which started from the state `start`. */
    method ArcNeighboursStep(x: nat, k: nat, v: int, ghost start: seq<Cell>, ghost queue0: seq<nat>, toAssign0: seq<nat>,
                             ghost c0: seq<Cell>, ghost log0: seq<Entry>, ghost marks0: seq<nat>)
      returns (toAssign: seq<nat>, failed: bool)
      requires Arcing(c0, log0, marks0) && Pending(toAssign0)
      requires x < |cells| && cells[x].Assigned() && cells[x].val.value == v && k < |shape.neighbours[x]|
      requires ArcStep(start, cells, queue0, toAssign0)
      requires cells == RemovedAll(start, shape.neighbours[x][..k], v) && Spared(start, shape.neighbours[x], k, v)
      modifies this`cells, this`dirty, trail
      ensures Arcing(c0, log0, marks0) && Pending(toAssign) && FlagsGrown(old(dirty), dirty)
      ensures ArcStep(start, cells, queue0, toAssign)
      ensures failed ==> !Consistent(shape, cells) && HoldsOnly(start, shape.neighbours[x][k], v) && cells == old(cells)
      ensures !failed ==>
        cells == RemovedAll(start, shape.neighbours[x][..k + 1], v) && Spared(start, shape.neighbours[x], k + 1, v)
      ensures cells[x] == old(cells)[x]
    {
      NeighbourInRange(shape, x, k);
      SparedStep(start, shape.neighbours[x], k, v);
      ghost var before := cells;
      toAssign, failed := ArcNeighbour(x, k, v, toAssign0, c0, log0, marks0);
      ArcStepTrans(start, before, cells, queue0, toAssign0, toAssign);
      if !failed {
        RemovedStep(start, shape.neighbours[x], k, v);
      }
    }

    /**
      Neighbour k of the assigned variable x: if it holds x's value, a
      domain of that value alone is a conflict; otherwise the neighbour is
      logged and loses the value, and is queued when one value is left.
     */
    method ArcNeighbour(x: nat, k: nat, assignedValue: int, toAssign0: seq<nat>,
                        ghost c0: seq<Cell>, ghost log0: seq<Entry>, ghost marks0: seq<nat>)
      returns (toAssign: seq<nat>, failed: bool)
      requires Arcing(c0, log0, marks0) && Pending(toAssign0)
      requires x < |cells| && cells[x].Assigned() && cells[x].val.value == assignedValue && k < |shape.neighbours[x]|
      modifies this`cells, this`dirty, trail
      ensures Arcing(c0, log0, marks0) && Pending(toAssign) && FlagsGrown(old(dirty), dirty)
      ensures ArcStep(old(cells), cells, toAssign0, toAssign)
      ensures failed ==> !Consistent(shape, cells)
      ensures var y := shape.neighbours[x][k];
        && y < |cells|
        && (failed <==> HoldsOnly(old(cells), y, assignedValue))
        && cells == (if failed then old(cells) else old(cells)[y := RemoveValue(old(cells)[y], assignedValue)])
        && toAssign == toAssign0 + if !failed && assignedValue in old(cells)[y].dom && |old(cells)[y].dom| == 2
                                   then [y] else []
    {
      NeighbourInRange(shape, x, k);
      var y := shape.neighbours[x][k];
      var d := cells[y].dom;
      toAssign := toAssign0;
      failed := false;
      if assignedValue in d {
        assert y in shape.neighbours[x];
        if |d| == 1 {
          SingletonClash(shape, cells, x, y);
          ArcStepNone(cells, toAssign);
          return toAssign, true;
        }
        toAssign := ArcRemove(y, assignedValue, toAssign, c0, log0, marks0);
      } else {
        assert d - {assignedValue} == d;
        assert cells[y := RemoveValue(cells[y], assignedValue)] == cells;
        ArcStepNone(cells, toAssign);
      }
    }

    /**
      A neighbour y holding the value v among at least two: it is queued
      when v is one of exactly two values, then logged, and it loses v.
     */
    method ArcRemove(y: nat, v: int, toAssign0: seq<nat>, ghost c0: seq<Cell>, ghost log0: seq<Entry>, ghost marks0: seq<nat>)
      returns (toAssign: seq<nat>)
      requires Arcing(c0, log0, marks0) && Pending(toAssign0)
      requires y < |cells| && v in cells[y].dom && |cells[y].dom| >= 2
      modifies this`cells, this`dirty, trail
      ensures Arcing(c0, log0, marks0) && Pending(toAssign) && FlagsGrown(old(dirty), dirty)
      ensures cells == old(cells)[y := RemoveValue(old(cells)[y], v)]
      ensures toAssign == toAssign0 + if |old(cells)[y].dom| == 2 then [y] else []
      ensures ArcStep(old(cells), cells, toAssign0, toAssign)
    {
      var d := cells[y].dom;
      assert CellOK(cells[y], shape.n);
      RemoveStep(cells, y, v, toAssign0);
      toAssign := toAssign0;
      if |d| == 2 {
        toAssign := toAssign + [y];
      }
      RemoveCard(d, v);
      ShrinkOK(cells[y], d - {v}, shape.n);
      LogAndRemove(y, v, log0, marks0, c0);
    }

    /**
      The forced assignments: each queued variable is logged on the trail
      and assigned its remaining value; no other variable changes. The
      first one was unassigned, so fewer variables are unassigned
      afterwards.
     */
    method ArcAssign(toAssign: seq<nat>, ghost c0: seq<Cell>, ghost log0: seq<Entry>, ghost marks0: seq<nat>)
      requires Arcing(c0, log0, marks0) && Pending(toAssign) && toAssign != []
      modifies this`cells, trail
      ensures Valid() && Logged(log0, marks0, c0) && Narrowed(c0, cells)
      ensures cells == ForcedAll(old(cells), toAssign)
      ensures |Unassigned(cells)| < |Unassigned(old(cells))|
    {
      ghost var start := cells;
      assert toAssign[..0] == [] && toAssign[0] in toAssign;
      var i := 0;
      while i < |toAssign|
        invariant 0 <= i <= |toAssign| && Valid() && Logged(log0, marks0, c0) && Narrowed(c0, cells)
        invariant forall a :: a in toAssign ==> a < |start| && |start[a].dom| == 1 && !c0[a].Assigned()
        invariant cells == ForcedAll(start, toAssign[..i])
        invariant i == 0 ==> toAssign[0] < |cells| && !cells[toAssign[0]].Assigned()
        invariant |Unassigned(cells)| <= |Unassigned(start)| - if i == 0 then 0 else 1
      {
        var a := toAssign[i];
        assert a in toAssign;
        ForcedStep(start, toAssign, i);
        var z := OnlyValue(cells[a].dom);
        AssignFewer(cells, a, AssignValue(z));
        LogAndAssign(a, z, log0, marks0, c0);
        i := i + 1;
      }
      assert toAssign[..i] == toAssign;
    }

    /**
      `trail->push(a)` followed by `assignValue(z)` on a variable whose
      domain is {z}; rolling the log back still restores `c0`.
     */
    method LogAndAssign(a: nat, z: int, ghost log0: seq<Entry>, ghost marks0: seq<nat>, ghost c0: seq<Cell>)
      requires Valid() && Logged(log0, marks0, c0) && Narrowed(c0, cells)
      requires a < |cells| && cells[a].dom == {z} && !c0[a].Assigned()
      modifies this`cells, trail
      ensures cells == old(cells)[a := AssignValue(z)]
      ensures trail.entries == old(trail.entries) + [Entry(a, old(cells)[a])]
      ensures Valid() && Logged(log0, marks0, c0) && Narrowed(c0, cells)
    {
      assert CellOK(cells[a], shape.n);
      LogChange(shape, cells, trail.entries, log0, c0, a, AssignValue(z));
      trail.Push(Entry(a, cells[a]));
      cells := cells[a := AssignValue(z)];
    }

    /** The variables whose modified flag is set, each mapped to its domain. */
    method ModifiedDomains() returns (m: map<nat, set<int>>)
      requires |dirty| == |cells|
      ensures forall x: nat :: x in m <==> x < |cells| && dirty[x]
      ensures forall x :: x in m ==> x < |cells| && m[x] == cells[x].dom
    {
      m := map[];
      var j := 0;
      while j < |cells|
        invariant 0 <= j <= |cells|
        invariant forall x :: x in m ==> x < j && dirty[x] && m[x] == cells[x].dom
        invariant forall x: nat :: x < j && dirty[x] ==> x in m
      {
        if dirty[j] {
          m := m[j := cells[j].dom];
        }
        j := j + 1;
      }
    }

    // -------------------------------------------------------------------
    // Search
    // -------------------------------------------------------------------

    /**
      `checkConsistency`: dispatch on the consistency-check tag, falling
      through to `assignmentsCheck`. Whatever the check, passing means the
      network is consistent, domains only narrow, assignments stay, and the
      trail's markers stay while its log only grows; every check but
      `norvigCheck` logs each change it makes.
     */
    method CheckConsistency() returns (ok: bool)
      requires Valid()
      modifies this`cells, this`dirty, trail
      ensures Valid() && Extended(old(trail.entries), old(trail.markers))
      ensures Narrowed(old(cells), cells)
      ensures ok ==> Consistent(shape, cells)
      ensures cChecks != NorvigCheckTag ==> Logged(old(trail.entries), old(trail.markers), old(cells))
      ensures cChecks == ForwardCheckingTag ==> ForwardOutcome(shape, old(cells), cells, ok)
      ensures cChecks == NorvigCheckTag ==> NorvigOutcome(shape, old(cells), cells, ok)
      ensures cChecks == DefaultCheck ==> cells == old(cells) && ok == Consistent(shape, cells)
      ensures cChecks == TournCCTag ==> cells == old(cells) && !ok
      ensures ((cChecks == DefaultCheck || cChecks == ForwardCheckingTag) &&
        AllAssigned(old(cells)) && Consistent(shape, old(cells))) ==> ok && cells == old(cells)
    {
      assert trail.entries[|trail.entries|..] == [];
      match cChecks {
        case ForwardCheckingTag =>
          if AllAssigned(cells) && Consistent(shape, cells) {
            SolvedPassCompletes(shape, cells);
          }
          var _, fc := ForwardChecking();
          ok := fc;
        case NorvigCheckTag =>
          var _, nc := NorvigCheck();
          ok := nc;
        case TournCCTag =>
          ok := GetTournCC();
        case DefaultCheck =>
          ok := AssignmentsCheck();
      }
    }

    /**
      `solve`, with the time budget as a number of levels: an exhausted
      budget gives -1; a found solution gives 0 at once. Otherwise the next
      variable is selected; when there is none and every variable is
      assigned, a solution is recorded. Else each proposed value is tried
      in turn (`Attempt`) until a solution is found or the budget runs out.

      With budget left, a complete assignment is recorded as a solution at
      once. Unless the check is `norvigCheck`, every level assigns one more
      variable, so a budget larger than the number of unassigned variables
      never runs out.

      A search that ends with 0 and no solution leaves the trail as it was,
      and the variables too unless the check is `norvigCheck`, whose forced
      assignments are not logged. A solution found from a consistent state
      is a consistent complete assignment; unless the check is
      `norvigCheck`, it also keeps every earlier assignment and takes its
      values from the earlier domains.
     */
    method Solve(fuel: nat) returns (status: int)
      requires Valid()
      modifies this`cells, this`dirty, this`hasSolution, trail
      ensures Valid() && (status == 0 || status == -1)
      ensures fuel == 0 ==> status == -1 && cells == old(cells) && hasSolution == old(hasSolution)
      ensures old(hasSolution) ==> hasSolution && cells == old(cells) && trail.entries == old(trail.entries)
      ensures old(hasSolution) && fuel > 0 ==> status == 0 && trail.markers == old(trail.markers)
      ensures status == 0 && !hasSolution ==>
        trail.entries == old(trail.entries) && trail.markers == old(trail.markers)
      ensures status == 0 && !hasSolution && cChecks != NorvigCheckTag ==> cells == old(cells)
      ensures hasSolution && !old(hasSolution) && Consistent(shape, old(cells)) ==> Consistent(shape, cells)
      ensures hasSolution && !old(hasSolution) && cChecks != NorvigCheckTag ==> Narrowed(old(cells), cells)
      ensures fuel > 0 && AllAssigned(old(cells)) ==> hasSolution && status == 0 && cells == old(cells)
      ensures cChecks != NorvigCheckTag && fuel > |Unassigned(old(cells))| ==> status == 0
      decreases fuel, 2
    {
      if fuel == 0 {
        return -1;
      }
      if hasSolution {
        return 0;
      }
      var v := SelectNextVariable();
      if v.None? {
        var k := 0;
        while k < |cells|
          invariant 0 <= k <= |cells|
          invariant forall j :: 0 <= j < k ==> cells[j].Assigned()
        {
          if !cells[k].Assigned() {
            return 0;
          }
          k := k + 1;
        }
        hasSolution := true;
        return 0;
      }
      var values := GetNextValues(v.value);
      assert CellOK(cells[v.value], shape.n);
      var t := 0;
      while t < |values|
        invariant 0 <= t <= |values| && Valid() && !hasSolution
        invariant trail.entries == old(trail.entries) && trail.markers == old(trail.markers)
        invariant cChecks != NorvigCheckTag ==> cells == old(cells)
      {
        assert values[t] in values;
        status := Attempt(v.value, values[t], fuel);
        if status == -1 {
          return -1;
        }
        if hasSolution {
          return 0;
        }
        t := t + 1;
      }
      return 0;
    }

    /**
      One value x for variable v in `solve`: a trail marker is placed, v is
      logged and assigned x, and the search goes on from there (`Descend`).
      Unless that found a solution or ran out of budget, the trail is
      undone to the marker.
     */
    method Attempt(v: nat, x: int, fuel: nat) returns (status: int)
      requires Valid() && !hasSolution && v < |cells| && 1 <= x <= shape.n && fuel > 0
      modifies this`cells, this`dirty, this`hasSolution, trail
      ensures Valid() && (status == 0 || status == -1)
      ensures status == 0 && !hasSolution ==>
        trail.entries == old(trail.entries) && trail.markers == old(trail.markers)
      ensures status == 0 && !hasSolution && cChecks != NorvigCheckTag ==> cells == old(cells)
      ensures hasSolution ==> Consistent(shape, cells)
      ensures hasSolution && cChecks != NorvigCheckTag && !old(cells)[v].Assigned() && x in old(cells)[v].dom ==>
        Narrowed(old(cells), cells)
      ensures cChecks != NorvigCheckTag && !old(cells)[v].Assigned() && fuel > |Unassigned(old(cells))| ==> status == 0
      ensures ((cChecks == DefaultCheck || cChecks == ForwardCheckingTag) && fuel > 1 &&
        AllAssigned(old(cells)[v := AssignValue(x)]) && Consistent(shape, old(cells)[v := AssignValue(x)])) ==>
        hasSolution && status == 0
      decreases fuel, 1
    {
      ghost var c0, log0, marks0 := cells, trail.entries, trail.markers;
      Decide(v, x);
      ghost var c1, log1 := cells, trail.entries;
      AssignFewer(c0, v, AssignValue(x));
      status := Descend(fuel);
      if status == -1 {
        return;
      }
      if hasSolution {
        if cChecks != NorvigCheckTag && !c0[v].Assigned() && x in c0[v].dom {
          NarrowedTrans(c0, c1, cells);
        }
        return;
      }
      if cChecks != NorvigCheckTag {
        GrownTrans(cells, trail.entries, log1, c1, log0, c0);
      }
      Backtrack(log0, marks0, c0);
    }

    /**
      The step of `solve` after a decision: `checkConsistency`, and if it
      passes, the search one level deeper. A complete, consistent
      assignment is reported as a solution under the default and the
      forward-checking checks, and the budget runs out only when it is no
      larger than the number of unassigned variables.
     */
    method Descend(fuel: nat) returns (status: int)
      requires Valid() && !hasSolution && fuel > 0
      modifies this`cells, this`dirty, this`hasSolution, trail
      ensures Valid() && (status == 0 || status == -1)
      ensures status == 0 && !hasSolution ==> Extended(old(trail.entries), old(trail.markers))
      ensures status == 0 && !hasSolution && cChecks != NorvigCheckTag ==>
        Logged(old(trail.entries), old(trail.markers), old(cells))
      ensures hasSolution ==> Consistent(shape, cells)
      ensures hasSolution && cChecks != NorvigCheckTag ==> Narrowed(old(cells), cells)
      ensures cChecks != NorvigCheckTag && fuel > |Unassigned(old(cells))| + 1 ==> status == 0
      ensures ((cChecks == DefaultCheck || cChecks == ForwardCheckingTag) && fuel > 1 &&
        AllAssigned(old(cells)) && Consistent(shape, old(cells))) ==> hasSolution && status == 0
      decreases fuel, 0
    {
      ghost var c1 := cells;
      var ok := CheckConsistency();
      NarrowedFewer(c1, cells);
      status := 0;
      if ok {
        status := Solve(fuel - 1);
      }
    }

    /** `placeTrailMarker`, `push(v)` and `assignValue(x)`: a decision that one undo reverts. */
    method Decide(v: nat, x: int)
      requires Valid() && !hasSolution && v < |cells| && 1 <= x <= shape.n
      modifies this`cells, trail
      ensures Valid() && cells == old(cells)[v := AssignValue(x)]
      ensures trail.markers == old(trail.markers) + [|old(trail.entries)|]
      ensures Logged(old(trail.entries), trail.markers, old(cells))
    {
      ghost var c0, log0 := cells, trail.entries;
      trail.PlaceTrailMarker();
      assert trail.entries[|log0|..] == [];
      assert CellOK(cells[v], shape.n);
      LogChange(shape, cells, trail.entries, log0, c0, v, AssignValue(x));
      trail.Push(Entry(v, cells[v]));
      cells := cells[v := AssignValue(x)];
    }

    /**
      `trail->undo()` after a failed decision: the log returns to log0 and
      the markers to marks0, and the logged snapshots are restored, latest
      first; the variables return to c0 when every change since the
      decision was logged.
     */
    method Backtrack(ghost log0: seq<Entry>, ghost marks0: seq<nat>, ghost c0: seq<Cell>)
      requires Valid() && !hasSolution && trail.markers == marks0 + [|log0|] && log0 <= trail.entries
      modifies this`cells, trail
      ensures Valid() && trail.entries == log0 && trail.markers == marks0
      ensures cells == Rollback(old(cells), old(trail.entries)[|log0|..])
      ensures Grown(old(cells), old(trail.entries), log0, c0) ==> cells == c0
    {
      RollbackOK(shape, cells, trail.entries[|log0|..]);
      assert trail.markers[|trail.markers| - 1] == |log0|;
      cells := trail.Undo(cells);
    }
  }
}
