/**
  The constraint network of a Sudoku puzzle: variables (cells) indexed by
  their storage order, each with a finite domain of values 1..n and an
  optional assignment, and a list of all-different constraints (rows,
  columns, boxes) over those indices.
 */
module Network {

  datatype Option<T> = None | Some(value: T)

  /** The selectors start their minimum search from this value. */
  const Infinity: int := 9999

  /** The state of one variable: its current domain and its assignment. */
  datatype Cell = Cell(dom: set<int>, val: Option<int>)
  {
    predicate Assigned() { val.Some? }
  }

  /** `assignValue(v)`: the domain collapses to {v} and the variable is assigned. */
  function AssignValue(v: int): (c: Cell)
    ensures c.Assigned() && c.val.value == v && c.dom == {v}
  {
    Cell({v}, Some(v))
  }

  /** `removeValueFromDomain(v)`: removing an absent value is a no-op. */
  function RemoveValue(c: Cell, v: int): (r: Cell)
    ensures r.val == c.val && v !in r.dom
    ensures forall x :: x in r.dom <==> x in c.dom && x != v
  {
    Cell(c.dom - {v}, c.val)
  }

  /**
    The fixed part of the network: values range over 1..n, each constraint
    lists the indices of its variables, and `neighbours[i]` lists the
    variables sharing a constraint with variable i.
   */
  datatype Shape = Shape(n: nat, constraints: seq<seq<nat>>, neighbours: seq<seq<nat>>)
  {
    function Size(): nat { |neighbours| }

    predicate Together(i: nat, j: nat) {
      exists k :: 0 <= k < |constraints| && i in constraints[k] && j in constraints[k]
    }

    /**
      Every index is in range, neighbour lists contain exactly the
      other members of the constraints a variable belongs to, and the
      domains fit under the selectors' sentinel.
     */
    predicate WellFormed() {
      && n < Infinity
      && (forall k, x :: 0 <= k < |constraints| && x in constraints[k] ==> x < |neighbours|)
      && (forall i, j :: 0 <= i < |neighbours| && j in neighbours[i] ==> j < |neighbours| && j != i && Together(i, j))
      && (forall k, i, j :: 0 <= k < |constraints| && i in constraints[k] && j in constraints[k] && i != j
            ==> j in neighbours[i])
    }
  }

  /** A variable state that the solver can hold: values in 1..n, assigned means collapsed. */
  predicate CellOK(c: Cell, n: nat) {
    && (forall v :: v in c.dom ==> 1 <= v <= n)
    && |c.dom| <= n
    && (c.Assigned() ==> 1 <= c.val.value <= n && c.dom == {c.val.value})
  }

  predicate StateOK(s: Shape, cells: seq<Cell>) {
    |cells| == s.Size() && forall k :: 0 <= k < |cells| ==> CellOK(cells[k], s.n)
  }

  /** Two distinct members of a constraint that may not coexist. */
  predicate Clash(a: Cell, b: Cell) {
    (a.Assigned() && b.Assigned() && a.val == b.val) || (|a.dom| == 1 && a.dom == b.dom)
  }

  /** `Constraint::isConsistent`: no two distinct members clash. */
  predicate ConstraintConsistent(c: seq<nat>, cells: seq<Cell>) {
    forall a, b :: 0 <= a < |c| && 0 <= b < |c| && c[a] != c[b] && c[a] < |cells| && c[b] < |cells|
      ==> !Clash(cells[c[a]], cells[c[b]])
  }

  /** `ConstraintNetwork::isConsistent`: every constraint is consistent. */
  predicate Consistent(s: Shape, cells: seq<Cell>) {
    forall k :: 0 <= k < |s.constraints| ==> ConstraintConsistent(s.constraints[k], cells)
  }

  predicate AllAssigned(cells: seq<Cell>) {
    forall k :: 0 <= k < |cells| ==> cells[k].Assigned()
  }

  /** From `before` to `after` every domain has only lost values and every assignment is kept. */
  predicate Narrowed(before: seq<Cell>, after: seq<Cell>) {
    && |after| == |before|
    && forall j :: 0 <= j < |before| ==>
         after[j].dom <= before[j].dom && (before[j].Assigned() ==> after[j].val == before[j].val)
  }

  /** No assignment differs between the two states. */
  predicate SameVals(before: seq<Cell>, after: seq<Cell>) {
    |after| == |before| && forall j :: 0 <= j < |before| ==> after[j].val == before[j].val
  }

  lemma NarrowedTrans(a: seq<Cell>, b: seq<Cell>, c: seq<Cell>)
    requires Narrowed(a, b) && Narrowed(b, c)
    ensures Narrowed(a, c)
  {
  }

  /** Neighbours are never assigned the same value in a consistent network. */
  lemma ConsistentNeighbours(s: Shape, cells: seq<Cell>, i: nat, j: nat)
    requires s.WellFormed() && |cells| == s.Size() && Consistent(s, cells)
    requires i < |cells| && j in s.neighbours[i]
    ensures !Clash(cells[i], cells[j])
  {
    var k :| 0 <= k < |s.constraints| && i in s.constraints[k] && j in s.constraints[k];
    var c := s.constraints[k];
    var a :| 0 <= a < |c| && c[a] == i;
    var b :| 0 <= b < |c| && c[b] == j;
    assert ConstraintConsistent(c, cells);
  }

  /**
    A neighbour of an assigned variable whose domain is just that
    variable's value clashes with it, so the network is inconsistent.
   */
  lemma SingletonClash(s: Shape, cells: seq<Cell>, x: nat, y: nat)
    requires s.WellFormed() && StateOK(s, cells) && x < |cells| && y in s.neighbours[x]
    requires cells[x].Assigned() && cells[x].val.value in cells[y].dom && |cells[y].dom| == 1
    ensures !Consistent(s, cells)
  {
    assert CellOK(cells[x], s.n);
    SingletonOf(cells[y].dom, cells[x].val.value);
    if Consistent(s, cells) {
      ConsistentNeighbours(s, cells, x, y);
    }
  }

  /** A listed neighbour is another variable of the network. */
  lemma NeighbourInRange(s: Shape, i: nat, t: nat)
    requires s.WellFormed() && i < |s.neighbours| && t < |s.neighbours[i]|
    ensures s.neighbours[i][t] < |s.neighbours| && s.neighbours[i][t] != i
  {
    assert s.neighbours[i][t] in s.neighbours[i];
  }

  /** Some member of constraint c has its modified flag set. */
  predicate Touched(c: seq<nat>, flags: seq<bool>) {
    exists t :: 0 <= t < |c| && c[t] < |flags| && flags[c[t]]
  }

  /** Flags are only ever set, never cleared. */
  predicate FlagsGrown(before: seq<bool>, after: seq<bool>) {
    |after| == |before| && forall j :: 0 <= j < |before| && before[j] ==> after[j]
  }

  /** A constraint with a flagged member keeps one while flags are only set. */
  lemma TouchedGrown(c: seq<nat>, before: seq<bool>, after: seq<bool>)
    requires FlagsGrown(before, after) && Touched(c, before)
    ensures Touched(c, after)
  {
    var t :| 0 <= t < |c| && c[t] < |before| && before[c[t]];
  }

  /**
    `getModifiedConstraints`: the indices, among the first k constraints,
    of those with a member whose modified flag is set, in order.
   */
  function ModifiedConstraints(s: Shape, flags: seq<bool>, k: nat): (r: seq<nat>)
    requires k <= |s.constraints|
    ensures forall q: nat :: q in r <==> q < k && Touched(s.constraints[q], flags)
  {
    if k == 0 then []
    else ModifiedConstraints(s, flags, k - 1) + if Touched(s.constraints[k - 1], flags) then [k - 1] else []
  }

  /** The unassigned variables; the arc-consistency recursion strictly shrinks this set. */
  function Unassigned(cells: seq<Cell>): set<nat> {
    set j: nat | j < |cells| && !cells[j].Assigned()
  }

  /** Assigning a variable never adds an unassigned one, and assigning an unassigned one removes it. */
  lemma AssignFewer(cells: seq<Cell>, j: nat, c: Cell)
    requires j < |cells| && c.Assigned()
    ensures |Unassigned(cells[j := c])| <= |Unassigned(cells)|
    ensures !cells[j].Assigned() ==> |Unassigned(cells[j := c])| < |Unassigned(cells)|
  {
    var before, after := Unassigned(cells), Unassigned(cells[j := c]);
    SubsetCard(after, before);
    if !cells[j].Assigned() {
      assert after <= before - {j};
      SubsetCard(after, before - {j});
      RemoveCard(before, j);
    }
  }

  /** Narrowing keeps every assignment, so it never adds an unassigned variable. */
  lemma NarrowedFewer(a: seq<Cell>, b: seq<Cell>)
    requires Narrowed(a, b)
    ensures |Unassigned(b)| <= |Unassigned(a)|
  {
    SubsetCard(Unassigned(b), Unassigned(a));
  }

  /** Removing a member of a set lowers its size by one. */
  lemma RemoveCard<T>(d: set<T>, v: T)
    requires v in d
    ensures |d - {v}| == |d| - 1
  {
    assert d == (d - {v}) + {v};
  }

  /** A one-element set holding v is {v}. */
  lemma SingletonOf(d: set<int>, v: int)
    requires |d| == 1 && v in d
    ensures d == {v}
  {
    RemoveCard(d, v);
    assert d - {v} == {};
  }

  /** The value of a one-element domain (`getValues()[0]`). */
  function OnlyValue(d: set<int>): (z: int)
    requires |d| == 1
    ensures d == {z}
  {
    HasMember(d);
    var z :| z in d;
    SingletonOf(d, z);
    z
  }

  /** A non-empty set has a member. */
  lemma HasMember(d: set<int>)
    requires d != {}
    ensures exists z :: z in d
  {
    if forall z :: z !in d {
      assert false;
    }
  }

  /** Removing values never invalidates a variable state. */
  lemma ShrinkOK(c: Cell, d: set<int>, n: nat)
    requires CellOK(c, n) && d <= c.dom && (c.Assigned() ==> d == c.dom)
    ensures CellOK(Cell(d, c.val), n)
  {
    SubsetCard(d, c.dom);
  }

  lemma SubsetCard<T>(a: set<T>, b: set<T>)
    requires a <= b
    ensures |a| <= |b|
  {
    assert b == a + (b - a);
  }
}
