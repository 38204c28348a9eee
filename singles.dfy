/**
  What the hidden-single step of Norvig's check does, stated on values:
  a value that a single member of a constraint can take is placed there,
  each placement followed by a forward-checking pass, and as long as the
  network stays sound every such member ends up assigned.
 */
module Singles {
  import opened Network
  import opened Propagation
  import opened Ordering

  /** Consistent, with no empty domain. */
  predicate Sound(s: Shape, cells: seq<Cell>) {
    Consistent(s, cells) && forall j :: 0 <= j < |cells| ==> cells[j].dom != {}
  }

  /** Every value 1..n still has a holder in every constraint. */
  predicate Placeable(s: Shape, cells: seq<Cell>) {
    forall k, z :: 0 <= k < |s.constraints| && 1 <= z <= s.n ==> CountHolding(cells, s.constraints[k], z) > 0
  }

  /** A clash survives narrowing that keeps both domains non-empty. */
  lemma ClashKept(x: Cell, y: Cell, x1: Cell, y1: Cell)
    requires x1.dom <= x.dom && y1.dom <= y.dom && x1.dom != {} && y1.dom != {}
    requires (x.Assigned() ==> x1.val == x.val) && (y.Assigned() ==> y1.val == y.val)
    requires Clash(x, y)
    ensures Clash(x1, y1)
  {
    if !(x.Assigned() && y.Assigned() && x.val == y.val) {
      var z := OnlyValue(x.dom);
      HasMember(x1.dom);
      HasMember(y1.dom);
      assert x1.dom == {z} && y1.dom == {z};
    }
  }

  /** Soundness survives going back to any state the current one narrows. */
  lemma SoundBack(s: Shape, a: seq<Cell>, b: seq<Cell>)
    requires Narrowed(a, b) && Sound(s, b)
    ensures Sound(s, a)
  {
    forall k | 0 <= k < |s.constraints| ensures ConstraintConsistent(s.constraints[k], a) {
      var c := s.constraints[k];
      forall p, q | 0 <= p < |c| && 0 <= q < |c| && c[p] != c[q] && c[p] < |a| && c[q] < |a|
        ensures !Clash(a[c[p]], a[c[q]])
      {
        assert !Clash(b[c[p]], b[c[q]]);
        if Clash(a[c[p]], a[c[q]]) {
          ClashKept(a[c[p]], a[c[q]], b[c[p]], b[c[q]]);
        }
      }
    }
  }

  /**
    `assignValue(z)` on j followed by `forwardChecking()`: the pass leaves
    an inconsistent network as it is, and otherwise stops at the first
    variable whose domain is empty when its turn comes.
   */
  function Placed(s: Shape, cells: seq<Cell>, j: nat, z: int): (r: seq<Cell>)
    requires j < |cells| == s.Size()
    ensures |r| == |cells| && r[j].val == Some(z)
    ensures forall w :: 0 <= w < |cells| && w != j ==> r[w].val == cells[w].val
    ensures !cells[j].Assigned() && z in cells[j].dom ==> Narrowed(cells, r)
  {
    var a := cells[j := AssignValue(z)];
    if Consistent(s, a) then
      var stop := StopTurn(s, a, 0);
      ForwardCheckShrinks(s, a, stop);
      ForwardCheck(s, a, stop)
    else a
  }

  /** What `forwardChecking()` leaves after z is assigned to j is the placement of z at j. */
  lemma PlacedByCheck(s: Shape, cells: seq<Cell>, j: nat, z: int, after: seq<Cell>)
    requires j < |cells| == s.Size()
    requires var a := cells[j := AssignValue(z)];
      && (!Consistent(s, a) ==> after == a)
      && (Consistent(s, a) ==> after == ForwardCheck(s, a, StopTurn(s, a, 0)))
    ensures after == Placed(s, cells, j, z)
  {
  }

  /** If the network is sound, no assigned value is left in a neighbour's domain. */
  predicate Settled(s: Shape, cells: seq<Cell>) {
    Sound(s, cells) ==> Eliminated(s, cells)
  }

  /** A placement that leaves the network sound ran its pass to the end. */
  lemma PlacedSettles(s: Shape, cells: seq<Cell>, j: nat, z: int)
    requires j < |cells| == s.Size()
    ensures Settled(s, Placed(s, cells, j, z))
  {
    var a := cells[j := AssignValue(z)];
    if Consistent(s, a) {
      var stop := StopTurn(s, a, 0);
      if stop < |cells| {
        assert Placed(s, cells, j, z)[stop].dom == DomAt(s, a, stop, stop);
      } else {
        ForwardCheckEliminates(s, a);
      }
    }
  }

  /**
    Placing z at j in a state where no assigned value is left in a
    neighbour's domain: every other variable keeps every value but z.
   */
  lemma PlacedKeeps(s: Shape, cells: seq<Cell>, j: nat, z: int, w: nat, v: int)
    requires j < |cells| == s.Size() && Eliminated(s, cells)
    requires w < |cells| && w != j && v in cells[w].dom && v != z
    ensures v in Placed(s, cells, j, z)[w].dom
  {
    var a := cells[j := AssignValue(z)];
    if Consistent(s, a) {
      var stop := StopTurn(s, a, 0);
      ElimBeforeMember(s, a, w, stop, v);
      forall i | 0 <= i < stop && i in Witnesses(s, a, w)
        ensures a[i].val.value != v
      {
        if i != j {
          assert cells[i] == a[i];
        }
      }
    }
  }

  /** An entry of vs holding x counts once. */
  lemma {:induction false} HolderOne(cells: seq<Cell>, vs: seq<nat>, x: int, p: nat)
    requires p < |vs| && vs[p] < |cells| && x in cells[vs[p]].dom
    ensures CountHolding(cells, vs, x) >= 1
    decreases |vs|
  {
    if p < |vs| - 1 {
      HolderOne(cells, vs[..|vs| - 1], x, p);
    }
  }

  /** Two different entries of vs holding x count twice. */
  lemma {:induction false} HolderPair(cells: seq<Cell>, vs: seq<nat>, x: int, p: nat, q: nat)
    requires p < q < |vs| && vs[p] < |cells| && vs[q] < |cells|
    requires x in cells[vs[p]].dom && x in cells[vs[q]].dom
    ensures CountHolding(cells, vs, x) >= 2
    decreases |vs|
  {
    if q < |vs| - 1 {
      HolderPair(cells, vs[..|vs| - 1], x, p, q);
    } else {
      HolderOne(cells, vs[..|vs| - 1], x, p);
    }
  }

  /** A count of at least one has an entry of vs holding x behind it. */
  lemma {:induction false} HolderExists(cells: seq<Cell>, vs: seq<nat>, x: int)
    requires CountHolding(cells, vs, x) >= 1
    ensures exists p :: 0 <= p < |vs| && vs[p] < |cells| && x in cells[vs[p]].dom
    decreases |vs|
  {
    var last := |vs| - 1;
    if !(vs[last] < |cells| && x in cells[vs[last]].dom) {
      HolderExists(cells, vs[..last], x);
      var p :| 0 <= p < last && vs[..last][p] < |cells| && x in cells[vs[..last][p]].dom;
      assert vs[p] == vs[..last][p];
    }
  }

  /** With a count of at most one, two entries holding x are the same entry. */
  lemma SingleHolder(cells: seq<Cell>, vs: seq<nat>, x: int, p: nat, q: nat)
    requires CountHolding(cells, vs, x) <= 1
    requires p < |vs| && q < |vs| && vs[p] < |cells| && vs[q] < |cells|
    ensures x in cells[vs[p]].dom && x in cells[vs[q]].dom ==> p == q
  {
    if x in cells[vs[p]].dom && x in cells[vs[q]].dom {
      if p < q {
        HolderPair(cells, vs, x, p, q);
      } else if q < p {
        HolderPair(cells, vs, x, q, p);
      }
    }
  }

  /** j is an unassigned member of vs that still holds z. */
  predicate FreeHolder(cells: seq<Cell>, vs: seq<nat>, z: int, j: nat) {
    j in vs && j < |cells| && !cells[j].Assigned() && z in cells[j].dom
  }

  /**
    z placed in vs: `after` is z placed at the free holder of z, if there
    is one, and `before` unchanged if there is none.
   */
  predicate Placing(s: Shape, before: seq<Cell>, after: seq<Cell>, vs: seq<nat>, z: int) {
    && |before| == s.Size()
    && (forall j :: j in vs && FreeHolder(before, vs, z, j) ==> after == Placed(s, before, j, z))
    && ((forall j :: j in vs ==> !FreeHolder(before, vs, z, j)) ==> after == before)
  }

  /** Every value from z up that a variable held in `start` it still holds, unless it is now assigned. */
  predicate KeepsFrom(start: seq<Cell>, cells: seq<Cell>, z: int) {
    forall w, v :: 0 <= w < |start| && w < |cells| && z <= v && v in start[w].dom
      ==> cells[w].Assigned() || v in cells[w].dom
  }

  /** Every value 1..z-1 with a single holder among vs in `start` found that holder assigned. */
  predicate PlacedBelow(start: seq<Cell>, cells: seq<Cell>, vs: seq<nat>, z: int) {
    forall v, j ::
      1 <= v < z && CountHolding(start, vs, v) == 1 && j in vs && j < |start| && j < |cells| && v in start[j].dom
      ==> cells[j].Assigned()
  }

  /** Every value with a single holder in a constraint of `start` found that holder assigned. */
  predicate SinglesFilled(s: Shape, start: seq<Cell>, cells: seq<Cell>) {
    forall k :: 0 <= k < |s.constraints| ==> PlacedBelow(start, cells, s.constraints[k], s.n + 1)
  }

  /** Assignments are never undone, so a filled holder stays filled. */
  lemma PlacedBelowKept(start: seq<Cell>, a: seq<Cell>, b: seq<Cell>, vs: seq<nat>, z: int)
    requires Narrowed(a, b) && PlacedBelow(start, a, vs, z)
    ensures PlacedBelow(start, b, vs, z)
  {
  }

  /** Assignments are never undone, so every constraint stays filled. */
  lemma SinglesFilledKept(s: Shape, start: seq<Cell>, a: seq<Cell>, b: seq<Cell>)
    requires Narrowed(a, b) && SinglesFilled(s, start, a)
    ensures SinglesFilled(s, start, b)
  {
    forall k | 0 <= k < |s.constraints| ensures PlacedBelow(start, b, s.constraints[k], s.n + 1) {
      PlacedBelowKept(start, a, b, s.constraints[k], s.n + 1);
    }
  }

  /**
    One value z of a constraint: the count taken at `start` is one and z
    is placed, or it is not one and nothing changes. If the network is
    sound afterwards, the single holder of z at `start` is assigned and
    every other value from z + 1 up is still where it was.
   */
  lemma SinglesStep(s: Shape, start: seq<Cell>, before: seq<Cell>, after: seq<Cell>, vs: seq<nat>, z: int)
    requires |before| == s.Size() && Narrowed(start, before) && Settled(s, before)
    requires Sound(s, before) ==> KeepsFrom(start, before, z) && PlacedBelow(start, before, vs, z)
    requires CountHolding(start, vs, z) != 1 ==> after == before
    requires CountHolding(start, vs, z) == 1 ==> Placing(s, before, after, vs, z)
    ensures Narrowed(before, after) && Settled(s, after)
    ensures Sound(s, after) ==> KeepsFrom(start, after, z + 1) && PlacedBelow(start, after, vs, z + 1)
  {
    if CountHolding(start, vs, z) == 1 && exists j :: FreeHolder(before, vs, z, j) {
      var j :| FreeHolder(before, vs, z, j);
      assert after == Placed(s, before, j, z);
      PlacedSettles(s, before, j, z);
      if Sound(s, after) {
        SoundBack(s, before, after);
        forall w, v | 0 <= w < |start| && w < |after| && z + 1 <= v && v in start[w].dom
          ensures after[w].Assigned() || v in after[w].dom
        {
          if w != j && !before[w].Assigned() {
            PlacedKeeps(s, before, j, z, w, v);
          }
        }
        forall v, i | 1 <= v < z + 1 && CountHolding(start, vs, v) == 1 && i in vs && i < |start| && i < |after|
          && v in start[i].dom
          ensures after[i].Assigned()
        {
          if v == z && FreeHolder(before, vs, z, i) {
            assert after == Placed(s, before, i, z);
          }
        }
      }
    }
  }

  /**
    A later constraint sees a narrower state than `start`: a value with a
    single holder in `start` that still has a holder has the same one.
   */
  lemma PlacedFromStart(start: seq<Cell>, before: seq<Cell>, after: seq<Cell>, vs: seq<nat>, n: int)
    requires Narrowed(start, before) && |after| == |before|
    requires forall v :: 1 <= v <= n ==> CountHolding(before, vs, v) != 0
    requires PlacedBelow(before, after, vs, n + 1)
    ensures PlacedBelow(start, after, vs, n + 1)
  {
    forall v, j | 1 <= v < n + 1 && CountHolding(start, vs, v) == 1 && j in vs && j < |start| && j < |after|
      && v in start[j].dom
      ensures after[j].Assigned()
    {
      CountHoldingMono(start, before, vs, v);
      HolderExists(before, vs, v);
      var p :| 0 <= p < |vs| && vs[p] < |before| && v in before[vs[p]].dom;
      var q :| 0 <= q < |vs| && vs[q] == j;
      SingleHolder(start, vs, v, p, q);
    }
  }

  /** A forward-checking pass that runs to the end on a consistent network found no empty domain. */
  lemma CompletedSoundStep(s: Shape, cells: seq<Cell>)
    requires |cells| == s.Size() && Consistent(s, cells) && StopTurn(s, cells, 0) == |cells|
    ensures Sound(s, cells)
  {
    forall j | 0 <= j < |cells| ensures cells[j].dom != {} {
      assert DomAt(s, cells, j, j) <= cells[j].dom;
    }
  }

  /**
    What `forwardChecking()` leaves: an inconsistent network as it is,
    otherwise the scan up to its stop turn.
   */
  function Checked(s: Shape, cells: seq<Cell>): (r: seq<Cell>)
    requires |cells| == s.Size()
    ensures Narrowed(cells, r) && SameVals(cells, r)
  {
    if Consistent(s, cells) then
      var stop := StopTurn(s, cells, 0);
      ForwardCheckShrinks(s, cells, stop);
      ForwardCheck(s, cells, stop)
    else cells
  }

  /** What `forwardChecking()` returns: consistent on entry, no empty domain met, consistent at the end. */
  predicate CheckPasses(s: Shape, cells: seq<Cell>)
    requires |cells| == s.Size()
  {
    Consistent(s, cells) && StopTurn(s, cells, 0) == |cells| && Consistent(s, ForwardCheck(s, cells, |cells|))
  }

  /**
    The pass succeeds whenever it leaves a sound network, and a success
    leaves a consistent network with no assigned value in a neighbour's
    domain.
   */
  lemma CheckedVerdict(s: Shape, cells: seq<Cell>)
    requires |cells| == s.Size()
    ensures Sound(s, Checked(s, cells)) ==> CheckPasses(s, cells)
    ensures CheckPasses(s, cells) ==> Checked(s, cells) == ForwardCheck(s, cells, |cells|)
    ensures CheckPasses(s, cells) ==> Consistent(s, Checked(s, cells)) && Eliminated(s, Checked(s, cells))
  {
    if Consistent(s, cells) {
      var stop := StopTurn(s, cells, 0);
      if stop < |cells| {
        assert Checked(s, cells)[stop].dom == DomAt(s, cells, stop, stop);
      }
      ForwardCheckEliminates(s, cells);
    }
  }

  /**
    The loop placing z in the members vs: each member in turn that is
    unassigned and still holds z takes z, and a forward-checking pass
    follows.
   */
  function PlaceAll(s: Shape, cells: seq<Cell>, vs: seq<nat>, z: int): (r: seq<Cell>)
    requires |cells| == s.Size()
    ensures |r| == |cells| && Narrowed(cells, r)
    decreases |vs|
  {
    if vs == [] then cells
    else
      var c := PlaceAll(s, cells, vs[..|vs| - 1], z);
      var j := vs[|vs| - 1];
      if j < |c| && !c[j].Assigned() && z in c[j].dom then
        NarrowedTrans(cells, c, Placed(s, c, j, z));
        Placed(s, c, j, z)
      else c
  }

  /**
    With at most one holder of z among vs, the loop places z at the free
    holder if there is one and changes nothing otherwise.
   */
  lemma {:induction false} PlaceAllPlacing(s: Shape, cells: seq<Cell>, vs: seq<nat>, z: int)
    requires |cells| == s.Size() && (forall p :: 0 <= p < |vs| ==> vs[p] < |cells|) && CountHolding(cells, vs, z) <= 1
    ensures Placing(s, cells, PlaceAll(s, cells, vs, z), vs, z)
    decreases |vs|
  {
    if vs != [] {
      var last := |vs| - 1;
      var front := vs[..last];
      assert forall p :: 0 <= p < |front| ==> front[p] == vs[p];
      PlaceAllPlacing(s, cells, front, z);
      if exists i :: i in front && FreeHolder(cells, front, z, i) {
        var i :| i in front && FreeHolder(cells, front, z, i);
        var p :| 0 <= p < last && front[p] == i;
        PlaceAllFront(s, cells, vs, z, p);
      } else {
        forall q | 0 <= q < last ensures !FreeHolder(cells, vs, z, vs[q]) {
          assert front[q] in front;
        }
        PlaceAllLast(s, cells, vs, z);
      }
    }
  }

  /** The free holder of z sits before the last member: the last member cannot be a second one. */
  lemma PlaceAllFront(s: Shape, cells: seq<Cell>, vs: seq<nat>, z: int, p: nat)
    requires |cells| == s.Size() && (forall q :: 0 <= q < |vs| ==> vs[q] < |cells|) && CountHolding(cells, vs, z) <= 1
    requires p < |vs| - 1 && FreeHolder(cells, vs, z, vs[p])
    requires PlaceAll(s, cells, vs[..|vs| - 1], z) == Placed(s, cells, vs[p], z)
    ensures Placing(s, cells, PlaceAll(s, cells, vs, z), vs, z)
  {
    var last := |vs| - 1;
    var c := Placed(s, cells, vs[p], z);
    if !c[vs[last]].Assigned() && z in c[vs[last]].dom {
      SingleHolder(cells, vs, z, p, last);
    }
    forall j | j in vs && FreeHolder(cells, vs, z, j) ensures j == vs[p] {
      var q :| 0 <= q < |vs| && vs[q] == j;
      SingleHolder(cells, vs, z, p, q);
    }
  }

  /** No member before the last holds z free: only the last member can be placed. */
  lemma PlaceAllLast(s: Shape, cells: seq<Cell>, vs: seq<nat>, z: int)
    requires |cells| == s.Size() && |vs| > 0 && (forall q :: 0 <= q < |vs| ==> vs[q] < |cells|)
    requires forall q :: 0 <= q < |vs| - 1 ==> !FreeHolder(cells, vs, z, vs[q])
    requires PlaceAll(s, cells, vs[..|vs| - 1], z) == cells
    ensures Placing(s, cells, PlaceAll(s, cells, vs, z), vs, z)
  {
    forall j | j in vs && FreeHolder(cells, vs, z, j) ensures j == vs[|vs| - 1] {
      var q :| 0 <= q < |vs| && vs[q] == j;
    }
  }

  /**
    One constraint vs whose values were counted at `start`: the values
    1..z-1 are done, each value counted once placed by `PlaceAll`.
   */
  function SinglesUpTo(s: Shape, start: seq<Cell>, vs: seq<nat>, z: int): (r: seq<Cell>)
    requires |start| == s.Size()
    ensures |r| == |start| && Narrowed(start, r)
    decreases z
  {
    if z <= 1 then start
    else
      var c := SinglesUpTo(s, start, vs, z - 1);
      if CountHolding(start, vs, z - 1) == 1 then
        NarrowedTrans(start, c, PlaceAll(s, c, vs, z - 1));
        PlaceAll(s, c, vs, z - 1)
      else c
  }

  /** The first value from z up to n that no member of vs holds, or n + 1 if there is none. */
  function GapFrom(cells: seq<Cell>, vs: seq<nat>, z: int, n: int): (g: int)
    requires 1 <= z <= n + 1
    ensures z <= g <= n + 1
    ensures forall x :: z <= x < g ==> CountHolding(cells, vs, x) != 0
    ensures g <= n ==> CountHolding(cells, vs, g) == 0
    decreases n + 1 - z
  {
    if z > n then z
    else if CountHolding(cells, vs, z) == 0 then z
    else GapFrom(cells, vs, z + 1, n)
  }

  /** The state a part of `norvigCheck` leaves, and whether it failed. */
  datatype Sweep = Sweep(cells: seq<Cell>, failed: bool)

  /**
    Step (2) of `norvigCheck` from constraint k on: each constraint is
    counted on the state the earlier ones left, its values with one holder
    are placed up to the first value with none, and such a value stops the
    step with failure.
   */
  function SinglesFrom(s: Shape, cells: seq<Cell>, k: nat): (r: Sweep)
    requires s.WellFormed() && |cells| == s.Size()
    ensures |r.cells| == |cells| && Narrowed(cells, r.cells)
    decreases |s.constraints| - k
  {
    if k >= |s.constraints| then Sweep(cells, false)
    else
      var vs := s.constraints[k];
      var g := GapFrom(cells, vs, 1, s.n);
      var c := SinglesUpTo(s, cells, vs, g);
      if g <= s.n then Sweep(c, true)
      else
        var r := SinglesFrom(s, c, k + 1);
        NarrowedTrans(cells, c, r.cells);
        r
  }

  /**
    Step (2) and the last forward-checking pass: the state `norvigCheck`
    leaves once step (1) has run to the end, and whether it fails.
   */
  function SinglesChecked(s: Shape, cells: seq<Cell>): (r: Sweep)
    requires s.WellFormed() && |cells| == s.Size()
    ensures |r.cells| == |cells| && Narrowed(cells, r.cells)
  {
    var p := SinglesFrom(s, cells, 0);
    if p.failed then p
    else
      NarrowedTrans(cells, p.cells, Checked(s, p.cells));
      Sweep(Checked(s, p.cells), !CheckPasses(s, p.cells))
  }

  /** Two variables in one constraint: 0 may take 1 or 2, 1 is assigned 3. */
  const StaleShape := Shape(3, [[0, 1]], [[1], [0]])
  const StaleCells := [Cell({1, 2}, None), Cell({3}, Some(3))]

  /** The two-variable network is well formed and eliminated, and 0 is the only holder of 1 and of 2. */
  lemma StaleStart()
    ensures StaleShape.WellFormed() && StateOK(StaleShape, StaleCells) && Eliminated(StaleShape, StaleCells)
    ensures CountHolding(StaleCells, [0, 1], 1) == 1 && CountHolding(StaleCells, [0, 1], 2) == 1
    ensures FreeHolder(StaleCells, [0, 1], 2, 0)
  {
    StaleShapeOK();
    assert [0, 1][..1] == [0];
  }

  /** The two-variable network is well formed and its state valid. */
  lemma StaleShapeOK()
    ensures StaleShape.WellFormed() && StateOK(StaleShape, StaleCells)
  {
    assert 0 in StaleShape.constraints[0] && 1 in StaleShape.constraints[0];
    assert StaleShape.Together(0, 1) && StaleShape.Together(1, 0);
    assert CellOK(StaleCells[0], 3) by {
      assert |{1, 2}| == 2;
    }
  }

  /** Both variables assigned, 0 to 1 and 1 to 3. */
  const StaleEnd := [Cell({1}, Some(1)), Cell({3}, Some(3))]

  /** Placing 1 at variable 0 gives StaleEnd. */
  lemma StalePlaced()
    ensures Placed(StaleShape, StaleCells, 0, 1) == StaleEnd
  {
    assert StaleCells[0 := AssignValue(1)] == StaleEnd;
    StaleEndSound();
    StaleEndStop();
    StaleEndFixed();
  }

  /** The pass over StaleEnd meets no empty domain: it runs past both turns. */
  lemma StaleEndStop()
    ensures StopTurn(StaleShape, StaleEnd, 0) == 2
  {
    var s, a := StaleShape, StaleEnd;
    assert ElimBefore(s, a, 0, 0) == {} && DomAt(s, a, 0, 0) == {1};
    assert ElimBefore(s, a, 1, 1) == {1} && DomAt(s, a, 1, 1) == {3};
    StopTurnAt(s, a, 0, 2);
  }

  /** The pass over StaleEnd removes nothing: every value it would remove is already gone. */
  lemma StaleEndFixed()
    ensures ForwardCheck(StaleShape, StaleEnd, 2) == StaleEnd
  {
    var s, a := StaleShape, StaleEnd;
    assert ElimBefore(s, a, 0, 2) == {3};
    assert ElimBefore(s, a, 1, 2) == {1};
    var r := ForwardCheck(s, a, 2);
    assert r[0] == a[0] && r[1] == a[1];
  }

  /** StaleEnd is sound and eliminated, and nobody in it can still take 2. */
  lemma StaleEndSound()
    ensures Sound(StaleShape, StaleEnd) && Eliminated(StaleShape, StaleEnd)
    ensures forall j :: j in [0, 1] ==> !FreeHolder(StaleEnd, [0, 1], 2, j)
  {
    assert ConstraintConsistent([0, 1], StaleEnd);
  }

  /**
    Counts are taken once per constraint. In the constraint {0, 1},
    variable 0 is the only holder of both 1 and 2. Placing 1 there leaves
    2 with no holder at all while its count still reads one, so nothing
    fails: the network stays sound with variable 0 holding 1.
   */
  lemma StaleCount()
    ensures var r := Placed(StaleShape, StaleCells, 0, 1);
      && CountHolding(StaleCells, [0, 1], 2) == 1 && FreeHolder(StaleCells, [0, 1], 2, 0)
      && Sound(StaleShape, r) && Eliminated(StaleShape, r) && r[0].val == Some(1)
      && (forall j :: j in [0, 1] ==> !FreeHolder(r, [0, 1], 2, j))
  {
    StaleStart();
    StalePlaced();
    StaleEndSound();
  }
}
