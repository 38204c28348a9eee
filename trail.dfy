/**
  The trail: a log of variable snapshots taken before each mutation, and a
  stack of markers into that log. Undoing to the last marker restores the
  logged variables, latest entry first, and pops the marker.
 */
module Trails {
  import opened Network

  /** `trail->push(v)`: the index of a variable and its state at push time. */
  datatype Entry = Entry(idx: nat, snap: Cell)

  function Restore(cells: seq<Cell>, e: Entry): (r: seq<Cell>)
    ensures |r| == |cells|
  {
    if e.idx < |cells| then cells[e.idx := e.snap] else cells
  }

  /** The cells obtained by restoring the entries `es`, latest first. */
  function Rollback(cells: seq<Cell>, es: seq<Entry>): (r: seq<Cell>)
    ensures |r| == |cells|
    decreases |es|
  {
    if es == [] then cells else Rollback(Restore(cells, es[|es| - 1]), es[..|es| - 1])
  }

  /** Rolling back a log in two parts: the later part first. */
  lemma {:induction false} RollbackAppend(cells: seq<Cell>, a: seq<Entry>, b: seq<Entry>)
    ensures Rollback(cells, a + b) == Rollback(Rollback(cells, b), a)
    decreases |b|
  {
    if b == [] {
      assert a + b == a;
    } else {
      var last := b[|b| - 1];
      assert (a + b)[..|a + b| - 1] == a + b[..|b| - 1];
      RollbackAppend(Restore(cells, last), a, b[..|b| - 1]);
    }
  }

  /** Pushing a variable and then changing it: rolling back cancels the change. */
  lemma RollbackPush(cells: seq<Cell>, es: seq<Entry>, j: nat, c: Cell)
    requires j < |cells|
    ensures Rollback(cells[j := c], es + [Entry(j, cells[j])]) == Rollback(cells, es)
  {
    assert (es + [Entry(j, cells[j])])[..|es|] == es;
    assert cells[j := c][j := cells[j]] == cells;
  }

  /** Restoring snapshots of valid variable states keeps the state valid. */
  lemma {:induction false} RollbackOK(s: Shape, cells: seq<Cell>, es: seq<Entry>)
    requires StateOK(s, cells)
    requires forall e :: e in es ==> e.idx < |cells| && CellOK(e.snap, s.n)
    ensures StateOK(s, Rollback(cells, es))
    decreases |es|
  {
    if es != [] {
      var e := es[|es| - 1];
      assert e in es;
      forall e' | e' in es[..|es| - 1] ensures e'.idx < |cells| && CellOK(e'.snap, s.n) {
        assert e' in es;
      }
      RollbackOK(s, Restore(cells, e), es[..|es| - 1]);
    }
  }

  /** Every entry logs a valid state of one of the first n variables. */
  predicate Snapshots(s: Shape, n: nat, es: seq<Entry>) {
    forall e :: e in es ==> e.idx < n && CellOK(e.snap, s.n)
  }

  /** The log extends log0, and rolling the extension back from `cells` gives `before`. */
  predicate Grown(cells: seq<Cell>, es: seq<Entry>, log0: seq<Entry>, before: seq<Cell>) {
    |log0| <= |es| && es[..|log0|] == log0 && Rollback(cells, es[|log0|..]) == before
  }

  /** Logging variable j before changing it keeps the log valid and still rolls back to `before`. */
  lemma LogChange(s: Shape, cells: seq<Cell>, es: seq<Entry>, log0: seq<Entry>, before: seq<Cell>, j: nat, c: Cell)
    requires j < |cells| && CellOK(cells[j], s.n)
    requires Snapshots(s, |cells|, es) && Grown(cells, es, log0, before)
    ensures Snapshots(s, |cells|, es + [Entry(j, cells[j])])
    ensures Grown(cells[j := c], es + [Entry(j, cells[j])], log0, before)
  {
    var es' := es + [Entry(j, cells[j])];
    RollbackPush(cells, es[|log0|..], j, c);
    assert es'[|log0|..] == es[|log0|..] + [Entry(j, cells[j])];
    assert es'[..|log0|] == log0;
  }

  /** Two stretches of logging compose: rolling back both restores the earliest state. */
  lemma GrownTrans(c2: seq<Cell>, e2: seq<Entry>, e1: seq<Entry>, c1: seq<Cell>, e0: seq<Entry>, c0: seq<Cell>)
    requires Grown(c1, e1, e0, c0) && Grown(c2, e2, e1, c1)
    ensures Grown(c2, e2, e0, c0)
  {
    assert e2[..|e0|] == e1[..|e0|];
    assert e2[|e0|..] == e1[|e0|..] + e2[|e1|..];
    RollbackAppend(c2, e1[|e0|..], e2[|e1|..]);
  }

  class Trail {
    var entries: seq<Entry>
    var markers: seq<nat>

    /** Markers nest: they point into the log in increasing order. */
    ghost predicate Valid()
      reads this
    {
      forall a, b :: 0 <= a <= b < |markers| ==> markers[a] <= markers[b] <= |entries|
    }

    constructor ()
      ensures Valid() && entries == [] && markers == []
    {
      entries := [];
      markers := [];
    }

    method Push(e: Entry)
      requires Valid()
      modifies this
      ensures Valid() && entries == old(entries) + [e] && markers == old(markers)
    {
      entries := entries + [e];
    }

    method PlaceTrailMarker()
      requires Valid()
      modifies this
      ensures Valid() && entries == old(entries) && markers == old(markers) + [|entries|]
    {
      markers := markers + [|entries|];
    }

    /**
      Restores, latest first, every entry logged since the last marker,
      drops those entries and pops the marker.
     */
    method Undo(cells: seq<Cell>) returns (restored: seq<Cell>)
      requires Valid() && |markers| > 0
      modifies this
      ensures Valid()
      ensures var m := old(markers[|markers| - 1]);
        && entries == old(entries[..m])
        && restored == Rollback(cells, old(entries[m..]))
      ensures markers == old(markers[..|markers| - 1])
    {
      var m := markers[|markers| - 1];
      markers := markers[..|markers| - 1];
      restored := cells;
      ghost var logged := entries;
      while |entries| > m
        invariant m <= |entries| <= |logged|
        invariant entries == logged[..|entries|]
        invariant markers == old(markers[..|markers| - 1])
        invariant Rollback(restored, entries[m..]) == Rollback(cells, logged[m..])
        decreases |entries|
      {
        var e := entries[|entries| - 1];
        assert entries[m..][..|entries[m..]| - 1] == entries[..|entries| - 1][m..];
        restored := Restore(restored, e);
        entries := entries[..|entries| - 1];
      }
      assert entries[m..] == [];
    }
  }
}
