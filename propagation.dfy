/**
  What a forward-checking pass computes, stated on values: scanning the
  variables in storage order, each assigned variable removes its value from
  the domains of its neighbours. Removals of different values commute, so
  after the first k variables the domain of j has lost exactly the values
  of the assigned variables among them that list j as a neighbour.
 */
module Propagation {
  import opened Network

  /** Values that the assigned variables among 0..k-1 remove from variable j. */
  function ElimBefore(s: Shape, cells: seq<Cell>, j: nat, k: nat): set<int>
    decreases k
  {
    if k == 0 then {}
    else ElimBefore(s, cells, j, k - 1) + Eliminates(s, cells, k - 1, j)
  }

  /** The value variable i removes from the domain of j: its own, if j is its neighbour. */
  function Eliminates(s: Shape, cells: seq<Cell>, i: nat, j: nat): set<int> {
    if i < |cells| && i < |s.neighbours| && cells[i].Assigned() && j in s.neighbours[i]
    then {cells[i].val.value} else {}
  }

  /** The domain of j once variables 0..k-1 have been processed. */
  function DomAt(s: Shape, cells: seq<Cell>, j: nat, k: nat): set<int>
    requires j < |cells|
  {
    cells[j].dom - ElimBefore(s, cells, j, k)
  }

  /**
    The turn at which the scan stops: the first variable, from i on, whose
    domain is empty when its turn comes, or the number of variables.
   */
  function StopTurn(s: Shape, cells: seq<Cell>, i: nat): (t: nat)
    requires |cells| == s.Size()
    ensures i <= t <= |cells| || (t == i && i > |cells|)
    ensures t < |cells| ==> DomAt(s, cells, t, t) == {}
    ensures forall k :: i <= k < t && k < |cells| ==> DomAt(s, cells, k, k) != {}
    decreases |cells| - i
  {
    if i >= |cells| then i
    else if DomAt(s, cells, i, i) == {} then i
    else StopTurn(s, cells, i + 1)
  }

  /** The variable states after variables 0..k-1 have been processed. */
  function ForwardCheck(s: Shape, cells: seq<Cell>, k: nat): (r: seq<Cell>)
    ensures |r| == |cells|
  {
    seq(|cells|, j requires 0 <= j < |cells| => Cell(DomAt(s, cells, j, k), cells[j].val))
  }

  /** Before any variable has been processed, nothing has changed. */
  lemma ForwardCheckStart(s: Shape, cells: seq<Cell>)
    ensures ForwardCheck(s, cells, 0) == cells
  {
    assert forall j :: 0 <= j < |cells| ==> ForwardCheck(s, cells, 0)[j] == Cell(cells[j].dom, cells[j].val);
  }

  /** No neighbour of an assigned variable still holds that variable's value. */
  predicate Eliminated(s: Shape, cells: seq<Cell>) {
    forall i, j :: 0 <= i < |cells| && i < |s.neighbours| && cells[i].Assigned() && j in s.neighbours[i] && j < |cells|
      ==> cells[i].val.value !in cells[j].dom
  }

  /** A value removed from j was the value of an assigned neighbour of j among 0..k-1. */
  lemma {:induction false} ElimBeforeMember(s: Shape, cells: seq<Cell>, j: nat, k: nat, v: int)
    ensures v in ElimBefore(s, cells, j, k) <==>
      exists i :: 0 <= i < k && i in Witnesses(s, cells, j) && cells[i].val.value == v
    decreases k
  {
    if k > 0 {
      ElimBeforeMember(s, cells, j, k - 1, v);
    }
  }

  /** The variables whose value is removed from j. */
  function Witnesses(s: Shape, cells: seq<Cell>, j: nat): set<nat> {
    set i: nat | i < |cells| && i < |s.neighbours| && cells[i].Assigned() && j in s.neighbours[i]
  }

  /** Removals only grow with the number of processed variables. */
  lemma {:induction false} ElimBeforeMono(s: Shape, cells: seq<Cell>, j: nat, k1: nat, k2: nat)
    requires k1 <= k2
    ensures ElimBefore(s, cells, j, k1) <= ElimBefore(s, cells, j, k2)
    decreases k2
  {
    if k1 < k2 {
      ElimBeforeMono(s, cells, j, k1, k2 - 1);
    }
  }

  /** Removals depend only on the assignments, not on the domains. */
  lemma {:induction false} ElimBeforeVals(s: Shape, c1: seq<Cell>, c2: seq<Cell>, j: nat, k: nat)
    requires |c1| == |c2|
    requires forall i :: 0 <= i < |c1| ==> c1[i].val == c2[i].val
    ensures ElimBefore(s, c1, j, k) == ElimBefore(s, c2, j, k)
    decreases k
  {
    if k > 0 {
      ElimBeforeVals(s, c1, c2, j, k - 1);
    }
  }

  /** Soundness of a completed pass: every assigned value is gone from its neighbours. */
  lemma ForwardCheckEliminates(s: Shape, cells: seq<Cell>)
    requires |cells| == s.Size()
    ensures Eliminated(s, ForwardCheck(s, cells, |cells|))
  {
    var r := ForwardCheck(s, cells, |cells|);
    forall i, j | 0 <= i < |r| && i < |s.neighbours| && r[i].Assigned() && j in s.neighbours[i] && j < |r|
      ensures r[i].val.value !in r[j].dom
    {
      assert i in Witnesses(s, cells, j);
      ElimBeforeMember(s, cells, j, |cells|, cells[i].val.value);
    }
  }

  /** A pass only removes values and never changes an assignment. */
  lemma ForwardCheckShrinks(s: Shape, cells: seq<Cell>, k: nat)
    ensures Narrowed(cells, ForwardCheck(s, cells, k))
    ensures forall j :: 0 <= j < |cells| ==> ForwardCheck(s, cells, k)[j].val == cells[j].val
  {
  }

  /** A pass keeps every assignment, so a fully assigned network stays fully assigned. */
  lemma ForwardCheckAssigned(s: Shape, cells: seq<Cell>, k: nat)
    requires AllAssigned(cells)
    ensures AllAssigned(ForwardCheck(s, cells, k))
  {
    var r := ForwardCheck(s, cells, k);
    assert forall j :: 0 <= j < |r| ==> r[j].val == cells[j].val;
  }

  /** Running a completed pass again changes no domain. */
  lemma ForwardCheckIdempotent(s: Shape, cells: seq<Cell>)
    requires |cells| == s.Size()
    ensures ForwardCheck(s, ForwardCheck(s, cells, |cells|), |cells|) == ForwardCheck(s, cells, |cells|)
  {
    var r := ForwardCheck(s, cells, |cells|);
    ForwardCheckEliminates(s, cells);
    forall j | 0 <= j < |r| ensures DomAt(s, r, j, |r|) == r[j].dom {
      forall v | v in ElimBefore(s, r, j, |r|) ensures v !in r[j].dom {
        ElimBeforeMember(s, r, j, |r|, v);
      }
    }
  }

  /**
    In a consistent network a pass never empties nor changes the domain of
    an assigned variable, so every variable state stays valid.
   */
  lemma ForwardCheckOK(s: Shape, cells: seq<Cell>, k: nat)
    requires s.WellFormed() && StateOK(s, cells) && Consistent(s, cells)
    ensures StateOK(s, ForwardCheck(s, cells, k))
  {
    var r := ForwardCheck(s, cells, k);
    forall j | 0 <= j < |cells| ensures CellOK(r[j], s.n) {
      if cells[j].Assigned() {
        forall v | v in ElimBefore(s, cells, j, k) ensures v != cells[j].val.value {
          ElimBeforeMember(s, cells, j, k, v);
          var i :| 0 <= i < k && i in Witnesses(s, cells, j) && cells[i].val.value == v;
          ConsistentNeighbours(s, cells, i, j);
        }
      }
      ShrinkOK(cells[j], r[j].dom, s.n);
    }
  }

  /**
    A complete, consistent assignment passes forward checking untouched:
    no neighbour holds an assigned value, so the scan meets no empty
    domain and removes nothing.
   */
  lemma SolvedPassCompletes(s: Shape, cells: seq<Cell>)
    requires s.WellFormed() && StateOK(s, cells) && Consistent(s, cells) && AllAssigned(cells)
    ensures StopTurn(s, cells, 0) == |cells| && ForwardCheck(s, cells, |cells|) == cells
  {
    forall k | 0 <= k < |cells| ensures DomAt(s, cells, k, k) != {} {
      SolvedDomAt(s, cells, k, k);
      assert CellOK(cells[k], s.n);
    }
    StopTurnAt(s, cells, 0, |cells|);
    var r := ForwardCheck(s, cells, |cells|);
    forall j | 0 <= j < |cells| ensures r[j] == cells[j] {
      SolvedDomAt(s, cells, j, |cells|);
    }
  }

  /** In a complete, consistent assignment no turn removes anything from the domain of j. */
  lemma SolvedDomAt(s: Shape, cells: seq<Cell>, j: nat, k: nat)
    requires s.WellFormed() && StateOK(s, cells) && Consistent(s, cells) && AllAssigned(cells) && j < |cells|
    ensures DomAt(s, cells, j, k) == cells[j].dom
  {
    assert CellOK(cells[j], s.n);
    forall v | v in ElimBefore(s, cells, j, k) ensures v !in cells[j].dom {
      ElimBeforeMember(s, cells, j, k, v);
      var i :| 0 <= i < k && i in Witnesses(s, cells, j) && cells[i].val.value == v;
      ConsistentNeighbours(s, cells, i, j);
    }
  }

  /**
    The domain of j during the turn of variable i, once the first t
    neighbours of i have been handled.
   */
  function Partial(s: Shape, cells: seq<Cell>, i: nat, t: nat, j: nat): set<int>
    requires j < |cells|
  {
    DomAt(s, cells, j, i)
      - if i < |cells| && i < |s.neighbours| && cells[i].Assigned() && t <= |s.neighbours[i]|
           && j in s.neighbours[i][..t]
        then {cells[i].val.value} else {}
  }

  lemma PartialStart(s: Shape, cells: seq<Cell>, i: nat, j: nat)
    requires j < |cells|
    ensures Partial(s, cells, i, 0, j) == DomAt(s, cells, j, i)
  {
  }

  lemma PartialEnd(s: Shape, cells: seq<Cell>, i: nat, j: nat)
    requires j < |cells| && i < |s.neighbours|
    ensures Partial(s, cells, i, |s.neighbours[i]|, j) == DomAt(s, cells, j, i + 1)
  {
    assert s.neighbours[i][..|s.neighbours[i]|] == s.neighbours[i];
  }

  /** Handling neighbour t of variable i removes i's value from that neighbour only. */
  lemma PartialStep(s: Shape, cells: seq<Cell>, i: nat, t: nat, j: nat)
    requires j < |cells| && i < |cells| && i < |s.neighbours| && t < |s.neighbours[i]|
    ensures Partial(s, cells, i, t + 1, j) ==
      if cells[i].Assigned() && j == s.neighbours[i][t]
      then Partial(s, cells, i, t, j) - {cells[i].val.value}
      else Partial(s, cells, i, t, j)
  {
    assert s.neighbours[i][..t + 1] == s.neighbours[i][..t] + [s.neighbours[i][t]];
  }

  /** Mid-turn states are valid variable states too. */
  lemma PartialOK(s: Shape, cells: seq<Cell>, i: nat, t: nat, j: nat)
    requires s.WellFormed() && StateOK(s, cells) && Consistent(s, cells) && j < |cells|
    ensures CellOK(Cell(Partial(s, cells, i, t, j), cells[j].val), s.n)
  {
    if cells[j].Assigned() {
      forall v | v in ElimBefore(s, cells, j, i) ensures v != cells[j].val.value {
        ElimBeforeMember(s, cells, j, i, v);
        var w :| 0 <= w < i && w in Witnesses(s, cells, j) && cells[w].val.value == v;
        ConsistentNeighbours(s, cells, w, j);
      }
      if i < |cells| && i < |s.neighbours| && cells[i].Assigned() && t <= |s.neighbours[i]|
         && j in s.neighbours[i][..t] {
        ConsistentNeighbours(s, cells, i, j);
      }
    }
    ShrinkOK(cells[j], Partial(s, cells, i, t, j), s.n);
  }

  /** A variable never lists itself, so its own turn does not touch its domain. */
  lemma OwnTurn(s: Shape, cells: seq<Cell>, j: nat)
    requires s.WellFormed() && j < |cells| == s.Size()
    ensures DomAt(s, cells, j, j + 1) == DomAt(s, cells, j, j)
  {
    assert Eliminates(s, cells, j, j) == {};
  }

  /** Whatever the first t neighbours of i have removed, j holds no more than at its own turn. */
  lemma PartialWithin(s: Shape, cells: seq<Cell>, i: nat, t: nat, j: nat)
    requires j <= i && j < |cells|
    ensures Partial(s, cells, i, t, j) <= DomAt(s, cells, j, j)
  {
    ElimBeforeMono(s, cells, j, j, i);
  }

  /** The scan from turn i stops at t when every domain before t is non-empty and t's is empty (or t is the end). */
  lemma {:induction false} StopTurnAt(s: Shape, cells: seq<Cell>, i: nat, t: nat)
    requires |cells| == s.Size() && i <= t <= |cells|
    requires forall k :: i <= k < t ==> DomAt(s, cells, k, k) != {}
    requires t < |cells| ==> DomAt(s, cells, t, t) == {}
    ensures StopTurn(s, cells, i) == t
    decreases t - i
  {
    if i < t {
      StopTurnAt(s, cells, i + 1, t);
    }
  }

  /** A non-empty domain at turn i lets the scan go past i. */
  lemma StopTurnPast(s: Shape, cells: seq<Cell>, i: nat)
    requires |cells| == s.Size() && i < |cells| && i <= StopTurn(s, cells, 0)
    requires DomAt(s, cells, i, i) != {}
    ensures i + 1 <= StopTurn(s, cells, 0)
  {
  }

  /** An empty domain at turn i, reached by the scan, stops it there. */
  lemma StopTurnHere(s: Shape, cells: seq<Cell>, i: nat)
    requires |cells| == s.Size() && i < |cells| && i <= StopTurn(s, cells, 0)
    requires DomAt(s, cells, i, i) == {}
    ensures StopTurn(s, cells, 0) == i
  {
  }

  /**
    The variables a completed pass reports as modified: those whose domain
    still shrinks after their own turn has come.
   */
  function Reported(s: Shape, cells: seq<Cell>): set<nat> {
    set j: nat | j < |cells| && DomAt(s, cells, j, |cells|) != DomAt(s, cells, j, j)
  }

  /**
    The variables whose domain a completed pass shrinks at all, whether
    before or after their own turn: what the map of `forwardChecking` is
    meant to report.
   */
  function Changed(s: Shape, cells: seq<Cell>): set<nat> {
    set j: nat | j < |cells| && DomAt(s, cells, j, |cells|) != cells[j].dom
  }

  /** Every reported variable has changed, but not conversely (`ReportedMissesEarlyLoss`). */
  lemma ReportedWithinChanged(s: Shape, cells: seq<Cell>)
    ensures Reported(s, cells) <= Changed(s, cells)
  {
    forall j | j in Reported(s, cells) ensures j in Changed(s, cells) {
      ElimBeforeMono(s, cells, j, j, |cells|);
    }
  }

  /** Two neighbouring variables sharing one constraint, with values 1..2. */
  const PairShape: Shape := Shape(2, [[0, 1]], [[1], [0]])

  /** The first variable is assigned 1; the second is unassigned with domain {1, 2}. */
  const PairCells: seq<Cell> := [Cell({1}, Some(1)), Cell({1, 2}, None)]

  /** The pair is a well-formed, valid and consistent network. */
  lemma PairValid()
    ensures PairShape.WellFormed() && StateOK(PairShape, PairCells) && Consistent(PairShape, PairCells)
  {
    var s, cells := PairShape, PairCells;
    assert s.Together(0, 1) && s.Together(1, 0) by {
      assert 0 in s.constraints[0] && 1 in s.constraints[0];
    }
    assert CellOK(cells[0], 2) && CellOK(cells[1], 2);
  }

  /**
    On the pair, the pass completes and removes 1 from the second
    variable, but before the second variable's turn, so it is not
    reported.
   */
  lemma ReportedMissesEarlyLoss()
    ensures PairShape.WellFormed() && StateOK(PairShape, PairCells) && Consistent(PairShape, PairCells)
    ensures StopTurn(PairShape, PairCells, 0) == |PairCells|
    ensures 1 in Changed(PairShape, PairCells) && 1 !in Reported(PairShape, PairCells)
  {
    PairValid();
    var s, cells := PairShape, PairCells;
    assert ElimBefore(s, cells, 1, 1) == {1} by {
      assert 1 in s.neighbours[0];
    }
    assert ElimBefore(s, cells, 1, 2) == {1};
    assert DomAt(s, cells, 1, 2) == {2} && DomAt(s, cells, 1, 1) == {2};
    assert {2} != {1, 2} by {
      assert 1 in {1, 2};
    }
    assert ElimBefore(s, cells, 0, 1) == {};
    assert DomAt(s, cells, 0, 0) == {1};
    assert StopTurn(s, cells, 0) == 2;
  }

  /** An unassigned variable's turn removes nothing. */
  lemma UnassignedTurn(s: Shape, cells: seq<Cell>, i: nat)
    requires i < |cells| && !cells[i].Assigned()
    ensures forall j :: 0 <= j < |cells| ==> DomAt(s, cells, j, i + 1) == DomAt(s, cells, j, i)
    ensures ForwardCheck(s, cells, i + 1) == ForwardCheck(s, cells, i)
  {
    assert forall j :: 0 <= j < |cells| ==> Eliminates(s, cells, i, j) == {};
  }

  /** The variable states during the turn of i, once its first t neighbours have been handled. */
  function Midturn(s: Shape, cells: seq<Cell>, i: nat, t: nat): (r: seq<Cell>)
    ensures |r| == |cells|
  {
    seq(|cells|, j requires 0 <= j < |cells| => Cell(Partial(s, cells, i, t, j), cells[j].val))
  }

  lemma MidturnStart(s: Shape, cells: seq<Cell>, i: nat)
    ensures Midturn(s, cells, i, 0) == ForwardCheck(s, cells, i)
  {
    forall j | 0 <= j < |cells| ensures Midturn(s, cells, i, 0)[j] == ForwardCheck(s, cells, i)[j] {
      PartialStart(s, cells, i, j);
    }
  }

  lemma MidturnEnd(s: Shape, cells: seq<Cell>, i: nat)
    requires i < |s.neighbours|
    ensures Midturn(s, cells, i, |s.neighbours[i]|) == ForwardCheck(s, cells, i + 1)
  {
    forall j | 0 <= j < |cells| {
      PartialEnd(s, cells, i, j);
    }
  }

  /** Handling neighbour t of an assigned variable i: its value leaves that neighbour's domain if there. */
  lemma MidturnStep(s: Shape, cells: seq<Cell>, i: nat, t: nat)
    requires i < |cells| && i < |s.neighbours| && t < |s.neighbours[i]| && s.neighbours[i][t] < |cells|
    requires cells[i].Assigned()
    ensures var cur := Midturn(s, cells, i, t);
            var j, v := s.neighbours[i][t], cells[i].val.value;
            Midturn(s, cells, i, t + 1) == if v in cur[j].dom then cur[j := RemoveValue(cur[j], v)] else cur
  {
    var cur := Midturn(s, cells, i, t);
    var j, v := s.neighbours[i][t], cells[i].val.value;
    var next := if v in cur[j].dom then cur[j := RemoveValue(cur[j], v)] else cur;
    forall j' | 0 <= j' < |cells| ensures Midturn(s, cells, i, t + 1)[j'] == next[j'] {
      PartialStep(s, cells, i, t, j');
    }
  }

  /** Mid-turn states only narrow the domains and keep every assignment. */
  lemma MidturnShrinks(s: Shape, cells: seq<Cell>, i: nat, t: nat)
    ensures Narrowed(cells, Midturn(s, cells, i, t)) && SameVals(cells, Midturn(s, cells, i, t))
  {
  }

  /** Mid-turn states are valid network states. */
  lemma MidturnOK(s: Shape, cells: seq<Cell>, i: nat, t: nat)
    requires s.WellFormed() && StateOK(s, cells) && Consistent(s, cells)
    ensures StateOK(s, Midturn(s, cells, i, t))
  {
    forall j | 0 <= j < |cells| {
      PartialOK(s, cells, i, t, j);
    }
  }

  /**
    Between turns: the modified flag of every variable already visited says
    whether its domain has shrunk since its own turn.
   */
  predicate FlagsAt(s: Shape, cells: seq<Cell>, flags: seq<bool>, k: nat)
    requires |flags| == |cells|
  {
    forall j {:trigger flags[j]} :: 0 <= j < k && j < |cells| ==> flags[j] == (DomAt(s, cells, j, k) != DomAt(s, cells, j, j))
  }

  /** The same, during the turn of i once its first t neighbours have been handled. */
  predicate FlagsMid(s: Shape, cells: seq<Cell>, flags: seq<bool>, i: nat, t: nat)
    requires |flags| == |cells|
  {
    forall j {:trigger flags[j]} :: 0 <= j <= i && j < |cells| ==> flags[j] == (Partial(s, cells, i, t, j) != DomAt(s, cells, j, j))
  }

  /** A turn begins by clearing the variable's own flag. */
  lemma FlagsBegin(s: Shape, cells: seq<Cell>, flags: seq<bool>, i: nat)
    requires |flags| == |cells| && i < |cells| && FlagsAt(s, cells, flags, i)
    ensures FlagsMid(s, cells, flags[i := false], i, 0)
  {
  }

  lemma FlagsEnd(s: Shape, cells: seq<Cell>, flags: seq<bool>, i: nat)
    requires |flags| == |cells| && i < |s.neighbours| && FlagsMid(s, cells, flags, i, |s.neighbours[i]|)
    ensures FlagsAt(s, cells, flags, i + 1)
  {
    forall j | 0 <= j < i + 1 && j < |cells| {
      PartialEnd(s, cells, i, j);
    }
  }

  /** The turn of an unassigned variable only clears its own flag. */
  lemma FlagsSkip(s: Shape, cells: seq<Cell>, flags: seq<bool>, i: nat)
    requires |flags| == |cells| && i < |cells| && !cells[i].Assigned() && FlagsAt(s, cells, flags, i)
    ensures FlagsAt(s, cells, flags[i := false], i + 1)
  {
    UnassignedTurn(s, cells, i);
  }

  /**
    The start of the turn of i: its own domain is as at its turn, and once
    its flag is cleared the flags describe the turn's first step.
   */
  lemma TurnStart(s: Shape, cells: seq<Cell>, flags: seq<bool>, i: nat)
    requires |flags| == |cells| && i < |cells| && FlagsAt(s, cells, flags, i)
    ensures ForwardCheck(s, cells, i)[i] == Cell(DomAt(s, cells, i, i), cells[i].val)
    ensures cells[i].Assigned() ==> FlagsMid(s, cells, flags[i := false], i, 0)
    ensures !cells[i].Assigned() ==>
      FlagsAt(s, cells, flags[i := false], i + 1) && ForwardCheck(s, cells, i + 1) == ForwardCheck(s, cells, i)
  {
    if cells[i].Assigned() {
      FlagsBegin(s, cells, flags, i);
    } else {
      FlagsSkip(s, cells, flags, i);
      UnassignedTurn(s, cells, i);
    }
  }

  /** A neighbour that loses a value is flagged as modified. */
  lemma FlagsStep(s: Shape, cells: seq<Cell>, flags: seq<bool>, i: nat, t: nat)
    requires |flags| == |cells| && i < |cells| && i < |s.neighbours| && t < |s.neighbours[i]|
    requires s.neighbours[i][t] < |cells| && cells[i].Assigned()
    requires FlagsMid(s, cells, flags, i, t)
    ensures var j, v := s.neighbours[i][t], cells[i].val.value;
            FlagsMid(s, cells, if v in Midturn(s, cells, i, t)[j].dom then flags[j := true] else flags, i, t + 1)
  {
    var j, v := s.neighbours[i][t], cells[i].val.value;
    forall j' | 0 <= j' < |cells| {
      PartialStep(s, cells, i, t, j');
    }
    if v in Partial(s, cells, i, t, j) && j <= i {
      PartialWithin(s, cells, i, t, j);
    }
  }

  // ---------------------------------------------------------------------
  // The flags of the corrected pass, cleared once before the scan
  // ---------------------------------------------------------------------

  /** Between turns: every flag says whether the domain has shrunk since the pass began. */
  predicate ChangedAt(s: Shape, cells: seq<Cell>, flags: seq<bool>, k: nat)
    requires |flags| == |cells|
  {
    forall j {:trigger flags[j]} :: 0 <= j < |cells| ==> flags[j] == (DomAt(s, cells, j, k) != cells[j].dom)
  }

  /** The same, during the turn of i once its first t neighbours have been handled. */
  predicate ChangedMid(s: Shape, cells: seq<Cell>, flags: seq<bool>, i: nat, t: nat)
    requires |flags| == |cells|
  {
    forall j {:trigger flags[j]} :: 0 <= j < |cells| ==> flags[j] == (Partial(s, cells, i, t, j) != cells[j].dom)
  }

  /** Cleared flags describe the start of the pass. */
  lemma ChangedStart(s: Shape, cells: seq<Cell>, flags: seq<bool>)
    requires |flags| == |cells| && forall j :: 0 <= j < |flags| ==> !flags[j]
    ensures ChangedAt(s, cells, flags, 0)
  {
  }

  lemma ChangedBegin(s: Shape, cells: seq<Cell>, flags: seq<bool>, i: nat)
    requires |flags| == |cells| && ChangedAt(s, cells, flags, i)
    ensures ChangedMid(s, cells, flags, i, 0)
  {
    forall j | 0 <= j < |cells| {
      PartialStart(s, cells, i, j);
    }
  }

  lemma ChangedEnd(s: Shape, cells: seq<Cell>, flags: seq<bool>, i: nat)
    requires |flags| == |cells| && i < |s.neighbours| && ChangedMid(s, cells, flags, i, |s.neighbours[i]|)
    ensures ChangedAt(s, cells, flags, i + 1)
  {
    forall j | 0 <= j < |cells| {
      PartialEnd(s, cells, i, j);
    }
  }

  /** After a completed pass the flagged variables are exactly the changed ones. */
  lemma ChangedKeys(s: Shape, cells: seq<Cell>, flags: seq<bool>, keys: set<nat>)
    requires |flags| == |cells| && ChangedAt(s, cells, flags, |cells|)
    requires forall x: nat :: x in keys <==> x < |cells| && flags[x]
    ensures keys == Changed(s, cells)
  {
    forall x: nat ensures x in keys <==> x in Changed(s, cells) {
    }
  }

  /** The turn of an unassigned variable leaves the flags right. */
  lemma ChangedSkip(s: Shape, cells: seq<Cell>, flags: seq<bool>, i: nat)
    requires |flags| == |cells| && i < |cells| && !cells[i].Assigned() && ChangedAt(s, cells, flags, i)
    ensures ChangedAt(s, cells, flags, i + 1)
  {
    UnassignedTurn(s, cells, i);
  }

  /** A neighbour that loses a value is flagged, and stays different from its domain at the start. */
  lemma ChangedStep(s: Shape, cells: seq<Cell>, flags: seq<bool>, i: nat, t: nat)
    requires |flags| == |cells| && i < |cells| && i < |s.neighbours| && t < |s.neighbours[i]|
    requires s.neighbours[i][t] < |cells| && cells[i].Assigned()
    requires ChangedMid(s, cells, flags, i, t)
    ensures var j, v := s.neighbours[i][t], cells[i].val.value;
            ChangedMid(s, cells, if v in Midturn(s, cells, i, t)[j].dom then flags[j := true] else flags, i, t + 1)
  {
    forall j' | 0 <= j' < |cells| {
      PartialStep(s, cells, i, t, j');
    }
  }

  // ---------------------------------------------------------------------
  // The elimination of norvigCheck: the same pass, stopping as soon as a
  // neighbour's domain becomes empty
  // ---------------------------------------------------------------------

  /** No domain is empty once every variable has been processed. */
  predicate Survives(s: Shape, cells: seq<Cell>) {
    forall j :: 0 <= j < |cells| ==> DomAt(s, cells, j, |cells|) != {}
  }

  /**
    Between turns: every variable already visited still holds a value, and
    a domain that is empty was empty from the start.
   */
  predicate AliveAt(s: Shape, cells: seq<Cell>, k: nat) {
    forall j :: 0 <= j < |cells| ==>
      (j < k ==> DomAt(s, cells, j, k) != {}) && (DomAt(s, cells, j, k) == {} ==> cells[j].dom == {})
  }

  /** The same, during the turn of i once its first t neighbours have been handled. */
  predicate AliveMid(s: Shape, cells: seq<Cell>, i: nat, t: nat) {
    forall j :: 0 <= j < |cells| ==>
      (j <= i ==> Partial(s, cells, i, t, j) != {}) && (Partial(s, cells, i, t, j) == {} ==> cells[j].dom == {})
  }

  lemma AliveStart(s: Shape, cells: seq<Cell>)
    ensures AliveAt(s, cells, 0)
  {
  }

  /** A completed elimination leaves every domain non-empty. */
  lemma AliveEndSurvives(s: Shape, cells: seq<Cell>)
    requires AliveAt(s, cells, |cells|)
    ensures Survives(s, cells)
  {
  }

  /** The turn of an assigned variable with a non-empty domain begins. */
  lemma AliveBegin(s: Shape, cells: seq<Cell>, i: nat)
    requires s.WellFormed() && i < |cells| == s.Size() && AliveAt(s, cells, i) && DomAt(s, cells, i, i) != {}
    ensures AliveMid(s, cells, i, 0)
  {
    forall j | 0 <= j < |cells| {
      PartialStart(s, cells, i, j);
    }
  }

  /** The turn of an unassigned variable with a non-empty domain removes nothing. */
  lemma AliveSkip(s: Shape, cells: seq<Cell>, i: nat)
    requires i < |cells| && !cells[i].Assigned() && AliveAt(s, cells, i) && DomAt(s, cells, i, i) != {}
    ensures AliveAt(s, cells, i + 1)
  {
    UnassignedTurn(s, cells, i);
  }

  /**
    Handling neighbour t of i keeps the invariant unless the neighbour's
    domain shrinks to nothing.
   */
  lemma AliveStep(s: Shape, cells: seq<Cell>, i: nat, t: nat)
    requires i < |cells| && i < |s.neighbours| && t < |s.neighbours[i]| && s.neighbours[i][t] < |cells|
    requires AliveMid(s, cells, i, t)
    requires var j := s.neighbours[i][t];
      Partial(s, cells, i, t + 1, j) == Partial(s, cells, i, t, j) || Partial(s, cells, i, t + 1, j) != {}
    ensures AliveMid(s, cells, i, t + 1)
  {
    forall j | 0 <= j < |cells| {
      PartialStep(s, cells, i, t, j);
    }
  }

  lemma AliveEnd(s: Shape, cells: seq<Cell>, i: nat)
    requires i < |s.neighbours| && AliveMid(s, cells, i, |s.neighbours[i]|)
    ensures AliveAt(s, cells, i + 1)
  {
    forall j | 0 <= j < |cells| {
      PartialEnd(s, cells, i, j);
    }
  }

  /** An empty domain at a variable's turn stays empty to the end. */
  lemma DiesAtTurn(s: Shape, cells: seq<Cell>, i: nat)
    requires i < |cells| && DomAt(s, cells, i, i) == {}
    ensures !Survives(s, cells)
  {
    ElimBeforeMono(s, cells, i, i, |cells|);
    assert DomAt(s, cells, i, |cells|) <= DomAt(s, cells, i, i);
  }

  /** A domain emptied during the turn of i stays empty to the end. */
  lemma DiesMidturn(s: Shape, cells: seq<Cell>, i: nat, t: nat, j: nat)
    requires i < |cells| && j < |cells| && Partial(s, cells, i, t, j) == {}
    ensures !Survives(s, cells)
  {
    ElimBeforeMono(s, cells, j, i + 1, |cells|);
    assert DomAt(s, cells, j, |cells|) <= Partial(s, cells, i, t, j);
    assert DomAt(s, cells, j, |cells|) == {};
  }
}
