/**
  A worked instance of the tick: one row of three trees, each adjacent to the
  trees beside it, with the left tree burning. Because a tree that catches
  fire earlier in a pass spreads the fire when its own turn comes later in
  the same pass, the outcome of one tick depends on the activation order.
*/
module RowExample {
  import opened Space
  import opened Forest

  /** A row of three cells, each holding a tree. */
  function RowGrid(): Grid
  {
    Grid(3, 1, map[(0, 0) := Some(0), (1, 0) := Some(1), (2, 0) := Some(2)], RowNeighbors)
  }

  /** Left-right adjacency along a row of three cells. */
  function RowNeighbors(p: Pos): (ns: seq<Pos>)
    ensures forall q :: q in ns ==> InBounds(3, 1, q)
  {
    if p == (0, 0) then [(1, 0)]
    else if p == (1, 0) then [(0, 0), (2, 0)]
    else if p == (2, 0) then [(1, 0)]
    else []
  }

  function RowSchedule(): seq<Tree>
  {
    [Tree((0, 0), (0, 0)), Tree((1, 0), (1, 0)), Tree((2, 0), (2, 0))]
  }

  /** The row is a well-formed forest: each tree in its own cell, neighbours inside the row. */
  lemma RowIsPlaced()
    ensures Placed(RowGrid(), RowSchedule()) && NeighborsInBounds(3, 1, RowNeighbors)
  {
  }

  /** In the row, the end trees neighbour the middle one, which neighbours both. */
  lemma RowNeighborTrees()
    ensures NeighborTrees(RowGrid(), RowSchedule(), 0) == {1}
    ensures NeighborTrees(RowGrid(), RowSchedule(), 1) == {0, 2}
    ensures NeighborTrees(RowGrid(), RowSchedule(), 2) == {1}
  {
    var g, s := RowGrid(), RowSchedule();
    assert g.neighborhood(s[0].pos) == [(1, 0)];
    assert [(1, 0)][..0] == [];
    assert g.neighborhood(s[1].pos) == [(0, 0), (2, 0)];
    assert [(0, 0), (2, 0)][..1] == [(0, 0)];
    assert [(0, 0)][..0] == [];
  }

  /**
    With the left tree burning, a left-to-right pass lets each tree catch fire
    and burn out within the same pass: the whole row burns in one tick.
  */
  lemma LeftToRightChains()
    ensures Activate(RowGrid(), RowSchedule(), [OnFire, Fine, Fine], [0, 1, 2]) == [BurnedOut, BurnedOut, BurnedOut]
  {
    var g, s := RowGrid(), RowSchedule();
    var cs := [OnFire, Fine, Fine];
    RowNeighborTrees();
    assert [0, 1, 2][..2] == [0, 1] && [0, 1][..1] == [0] && [0][..0] == [];
    var s1 := TreeStep(g, s, cs, 0);
    assert s1 == [BurnedOut, OnFire, Fine];
    assert Activate(g, s, cs, [0]) == s1;
    var s2 := TreeStep(g, s, s1, 1);
    assert s2 == [BurnedOut, BurnedOut, OnFire];
    assert Activate(g, s, cs, [0, 1]) == s2;
    assert TreeStep(g, s, s2, 2) == [BurnedOut, BurnedOut, BurnedOut];
  }

  /** From the same start, a right-to-left pass sets only the middle tree on fire. */
  lemma RightToLeftStops()
    ensures Activate(RowGrid(), RowSchedule(), [OnFire, Fine, Fine], [2, 1, 0]) == [BurnedOut, OnFire, Fine]
  {
    var g, s := RowGrid(), RowSchedule();
    RowNeighborTrees();
    assert [2, 1, 0][..2] == [2, 1] && [2, 1][..1] == [2] && [2][..0] == [];
    assert TreeStep(g, s, [OnFire, Fine, Fine], 0) == [BurnedOut, OnFire, Fine];
  }
}
