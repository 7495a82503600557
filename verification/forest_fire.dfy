/**
  The forest-fire cellular automaton: trees on a grid are Fine, On Fire or
  Burned Out; when a burning tree is activated it sets every Fine neighbour on
  fire and burns out; one tick activates every registered tree once, in an
  order the scheduler chooses, and the model stops running once no tree burns.

  Tree number i is the i-th tree registered with the schedule. Its identity
  (position and identifier) lives in `schedule[i]`, its condition in the i-th
  slot of the model's condition array, and the grid cell at its position holds
  the number i.
*/
module Forest {
  import opened Space

  datatype Condition = Fine | OnFire | BurnedOut

  /** The order in which conditions may follow one another. */
  function Rank(c: Condition): nat
  {
    match c
    case Fine => 0
    case OnFire => 1
    case BurnedOut => 2
  }

  /** Every tree's condition in `after` is its condition in `before` or a later one. */
  ghost predicate Advances(before: seq<Condition>, after: seq<Condition>)
  {
    |before| == |after| && forall j :: 0 <= j < |before| ==> Rank(before[j]) <= Rank(after[j])
  }

  /** The fixed part of a tree: where it stands and what identifies it. */
  datatype Tree = Tree(pos: Pos, uniqueId: Pos)

  /** A new tree at (x, y), with its initial condition. */
  function NewTree(x: int, y: int): (r: (Tree, Condition))
    ensures r.0.pos == (x, y) && r.0.uniqueId == (x, y)
    ensures r.1 == Fine
  {
    (Tree((x, y), (x, y)), Fine)
  }

  /**
    The grid and the schedule agree: the grid covers the rectangle, each
    registered tree stands in the cell that holds its number, each occupied
    cell holds the number of a registered tree standing there, and a tree's
    identifier is its position.
  */
  ghost predicate Placed(g: Grid, schedule: seq<Tree>)
  {
    && (forall p :: p in g.cells <==> InBounds(g.width, g.height, p))
    && (forall i :: 0 <= i < |schedule| ==>
          schedule[i].pos in g.cells && g.cells[schedule[i].pos] == Some(i) && schedule[i].uniqueId == schedule[i].pos)
    && (forall p :: p in g.cells && g.cells[p].Some? ==>
          g.cells[p].value < |schedule| && schedule[g.cells[p].value].pos == p)
  }

  /** The numbers of the trees adjacent to tree i. */
  function NeighborTrees(g: Grid, schedule: seq<Tree>, i: nat): set<nat>
    requires i < |schedule|
  {
    Occupants(g, g.neighborhood(schedule[i].pos))
  }

  /**
    The conditions after tree i is activated: a burning tree sets each Fine
    neighbour on fire and then burns out; any other tree does nothing.
  */
  function TreeStep(g: Grid, schedule: seq<Tree>, cs: seq<Condition>, i: nat): (r: seq<Condition>)
    requires |cs| == |schedule| && i < |cs|
    ensures Advances(cs, r)
    ensures forall j :: 0 <= j < |cs| && r[j] != cs[j] ==> j == i || j in NeighborTrees(g, schedule, i)
    ensures cs[i] == OnFire ==> r[i] == BurnedOut
  {
    if cs[i] != OnFire then cs
    else
      var ns := NeighborTrees(g, schedule, i);
      seq(|cs|, j requires 0 <= j < |cs| =>
        if j == i then BurnedOut else if j in ns && cs[j] == Fine then OnFire else cs[j])
  }

  /** Every entry of `order` names a registered tree. */
  predicate InRange(order: seq<nat>, n: nat)
  {
    forall k :: 0 <= k < |order| ==> order[k] < n
  }

  /** `order` activates each of the n registered trees exactly once and nothing else. */
  ghost predicate ActivatesEachOnce(order: seq<nat>, n: nat)
  {
    InRange(order, n) && forall i :: 0 <= i < n ==> multiset(order)[i] == 1
  }

  /** The tree numbers 0, 1, ..., n - 1 in increasing order. */
  function Indices(n: nat): (s: seq<nat>)
    decreases n
  {
    if n == 0 then [] else Indices(n - 1) + [n - 1]
  }

  /** Each number below n occurs once among Indices(n), and no other number occurs. */
  lemma {:induction false} IndicesOnce(n: nat, x: nat)
    ensures multiset(Indices(n))[x] == if x < n then 1 else 0
    decreases n
  {
    if n > 0 {
      IndicesOnce(n - 1, x);
    }
  }

  /** Indices(n) has one entry per tree. */
  lemma {:induction false} IndicesLength(n: nat)
    ensures |Indices(n)| == n
    decreases n
  {
    if n > 0 {
      IndicesLength(n - 1);
    }
  }

  /**
    An order that activates each registered tree exactly once is a permutation
    of the tree numbers, so it has exactly one entry per tree.
  */
  lemma ActivationOrderIsPermutation(order: seq<nat>, n: nat)
    requires ActivatesEachOnce(order, n)
    ensures multiset(order) == multiset(Indices(n))
    ensures |order| == n
  {
    forall x: nat ensures multiset(order)[x] == multiset(Indices(n))[x] {
      IndicesOnce(n, x);
      if x >= n {
        assert x !in order;
      }
    }
    assert multiset(order) == multiset(Indices(n));
    assert |Indices(n)| == n by {
      IndicesLength(n);
    }
  }

  /**
    One pass of the scheduler: the trees are activated one after the other in
    `order`, each seeing the conditions its predecessors in the same pass left.
  */
  function Activate(g: Grid, schedule: seq<Tree>, cs: seq<Condition>, order: seq<nat>): (r: seq<Condition>)
    requires |cs| == |schedule| && InRange(order, |cs|)
    ensures Advances(cs, r)
    decreases |order|
  {
    if order == [] then cs
    else TreeStep(g, schedule, Activate(g, schedule, cs, order[..|order| - 1]), order[|order| - 1])
  }

  /** Number of trees in condition c. */
  function Count(cs: seq<Condition>, c: Condition): (n: nat)
    ensures n <= |cs|
    decreases |cs|
  {
    if cs == [] then 0
    else Count(cs[..|cs| - 1], c) + (if cs[|cs| - 1] == c then 1 else 0)
  }

  /** Count agrees with the multiplicity of c among the conditions. */
  lemma {:induction false} CountIsMultiplicity(cs: seq<Condition>, c: Condition)
    ensures Count(cs, c) == multiset(cs)[c]
    decreases |cs|
  {
    if cs != [] {
      CountIsMultiplicity(cs[..|cs| - 1], c);
      assert cs == cs[..|cs| - 1] + [cs[|cs| - 1]];
    }
  }

  /** No tree is in condition c exactly when c is counted zero times. */
  lemma CountZero(cs: seq<Condition>, c: Condition)
    ensures Count(cs, c) == 0 <==> c !in cs
  {
  }

  /** Every tree is in exactly one of the three conditions. */
  lemma {:induction false} CountsSum(cs: seq<Condition>)
    ensures Count(cs, Fine) + Count(cs, OnFire) + Count(cs, BurnedOut) == |cs|
    decreases |cs|
  {
    if cs != [] {
      CountsSum(cs[..|cs| - 1]);
    }
  }

  /** When conditions only advance, Fine trees never grow in number and burned-out ones never shrink. */
  lemma {:induction false} AdvanceCounts(a: seq<Condition>, b: seq<Condition>)
    requires Advances(a, b)
    ensures Count(b, Fine) <= Count(a, Fine)
    ensures Count(a, BurnedOut) <= Count(b, BurnedOut)
    decreases |a|
  {
    if a != [] {
      AdvanceCounts(a[..|a| - 1], b[..|b| - 1]);
    }
  }

  /** When conditions only advance and tree i burns out, the burned-out count grows. */
  lemma {:induction false} AdvanceBurnsOne(a: seq<Condition>, b: seq<Condition>, i: nat)
    requires Advances(a, b) && i < |a|
    requires a[i] != BurnedOut && b[i] == BurnedOut
    ensures Count(a, BurnedOut) < Count(b, BurnedOut)
    decreases |a|
  {
    var n := |a| - 1;
    if i == n {
      AdvanceCounts(a[..n], b[..n]);
    } else {
      AdvanceBurnsOne(a[..n], b[..n], i);
    }
  }

  /** A pass over a forest with no fire changes nothing. */
  lemma {:induction false} NoFireIsQuiescent(g: Grid, schedule: seq<Tree>, cs: seq<Condition>, order: seq<nat>)
    requires |cs| == |schedule| && InRange(order, |cs|)
    requires OnFire !in cs
    ensures Activate(g, schedule, cs, order) == cs
    decreases |order|
  {
    if order != [] {
      NoFireIsQuiescent(g, schedule, cs, order[..|order| - 1]);
    }
  }

  /** A burning tree keeps burning until it is itself activated. */
  lemma {:induction false} BurnsUntilActivated(g: Grid, schedule: seq<Tree>, cs: seq<Condition>, order: seq<nat>, i: nat)
    requires |cs| == |schedule| && InRange(order, |cs|) && i < |cs|
    requires cs[i] == OnFire && i !in order
    ensures Activate(g, schedule, cs, order)[i] == OnFire
    decreases |order|
  {
    if order != [] {
      var prefix := order[..|order| - 1];
      assert forall k :: 0 <= k < |prefix| ==> prefix[k] == order[k];
      BurnsUntilActivated(g, schedule, cs, prefix, i);
    }
  }

  /** A tree burning at the start of a pass that activates it is burned out at the end. */
  lemma {:induction false} BurningTreeBurnsOut(g: Grid, schedule: seq<Tree>, cs: seq<Condition>, order: seq<nat>, i: nat)
    requires |cs| == |schedule| && InRange(order, |cs|) && i < |cs|
    requires cs[i] == OnFire && i in order
    ensures Activate(g, schedule, cs, order)[i] == BurnedOut
    decreases |order|
  {
    var prefix := order[..|order| - 1];
    assert order == prefix + [order[|order| - 1]];
    if i in prefix {
      BurningTreeBurnsOut(g, schedule, cs, prefix, i);
    } else {
      BurnsUntilActivated(g, schedule, cs, prefix, i);
    }
  }

  /**
    A Fine tree next to a tree that burns at the start of a pass that activates
    the burning tree is no longer Fine at the end of the pass.
  */
  lemma {:induction false} FireReachesNeighbors(g: Grid, schedule: seq<Tree>, cs: seq<Condition>, order: seq<nat>, i: nat, j: nat)
    requires |cs| == |schedule| && InRange(order, |cs|) && i < |cs| && j < |cs|
    requires cs[i] == OnFire && i in order
    requires j in NeighborTrees(g, schedule, i) && cs[j] == Fine
    ensures Activate(g, schedule, cs, order)[j] != Fine
    decreases |order|
  {
    var prefix := order[..|order| - 1];
    assert order == prefix + [order[|order| - 1]];
    if i in prefix {
      FireReachesNeighbors(g, schedule, cs, prefix, i, j);
    } else {
      BurnsUntilActivated(g, schedule, cs, prefix, i);
    }
  }

  /** While some tree burns, every full pass burns out at least one more tree. */
  lemma BurningPassProgresses(g: Grid, schedule: seq<Tree>, cs: seq<Condition>, order: seq<nat>)
    requires |cs| == |schedule| && ActivatesEachOnce(order, |cs|)
    requires OnFire in cs
    ensures Count(cs, BurnedOut) < Count(Activate(g, schedule, cs, order), BurnedOut)
  {
    var i :| 0 <= i < |cs| && cs[i] == OnFire;
    assert multiset(order)[i] == 1;
    BurningTreeBurnsOut(g, schedule, cs, order, i);
    AdvanceBurnsOne(cs, Activate(g, schedule, cs, order), i);
  }

  /** Successive passes, one per element of `orders`. */
  function Run(g: Grid, schedule: seq<Tree>, cs: seq<Condition>, orders: seq<seq<nat>>): (r: seq<Condition>)
    requires |cs| == |schedule| && forall t :: 0 <= t < |orders| ==> InRange(orders[t], |cs|)
    ensures Advances(cs, r)
    decreases |orders|
  {
    if orders == [] then cs
    else Run(g, schedule, Activate(g, schedule, cs, orders[0]), orders[1..])
  }

  /** Once no tree burns, further passes change nothing. */
  lemma {:induction false} RunQuiescent(g: Grid, schedule: seq<Tree>, cs: seq<Condition>, orders: seq<seq<nat>>)
    requires |cs| == |schedule| && forall t :: 0 <= t < |orders| ==> InRange(orders[t], |cs|)
    requires OnFire !in cs
    ensures Run(g, schedule, cs, orders) == cs
    decreases |orders|
  {
    if orders != [] {
      NoFireIsQuiescent(g, schedule, cs, orders[0]);
      RunQuiescent(g, schedule, cs, orders[1..]);
    }
  }

  /**
    The fire dies out: after as many passes as there are trees not yet burned
    out, no tree burns, whatever order each pass uses.
  */
  lemma {:induction false} FireDiesOut(g: Grid, schedule: seq<Tree>, cs: seq<Condition>, orders: seq<seq<nat>>)
    requires |cs| == |schedule|
    requires forall t :: 0 <= t < |orders| ==> InRange(orders[t], |cs|) && ActivatesEachOnce(orders[t], |cs|)
    requires |orders| >= |cs| - Count(cs, BurnedOut)
    ensures OnFire !in Run(g, schedule, cs, orders)
    decreases |orders|
  {
    if OnFire !in cs {
      RunQuiescent(g, schedule, cs, orders);
    } else if orders == [] {
      CountsSum(cs);
      CountZero(cs, OnFire);
    } else {
      BurningPassProgresses(g, schedule, cs, orders[0]);
      FireDiesOut(g, schedule, Activate(g, schedule, cs, orders[0]), orders[1..]);
    }
  }

  /** Cell p comes before (x, y) when the cells are visited row by row. */
  predicate VisitedBefore(p: Pos, x: int, y: int)
  {
    p.1 < y || (p.1 == y && p.0 < x)
  }

  /** What the seeding loop has built once every cell before (x, y) has been visited. */
  ghost predicate SeededBefore(grid: Grid, schedule: seq<Tree>, conds: seq<Condition>, plant: Pos -> bool, x: int, y: int)
  {
    && Placed(grid, schedule)
    && |conds| == |schedule|
    && (forall p :: p in grid.cells ==> (grid.cells[p].Some? <==> VisitedBefore(p, x, y) && plant(p)))
    && (forall i :: 0 <= i < |schedule| ==> conds[i] == if schedule[i].pos.0 == 0 then OnFire else Fine)
  }

  /**
    The seeding loop: every cell of the rectangle is visited once; where
    `plant` says so, a new tree is created (set on fire when it stands in
    column 0), placed in the grid and registered with the schedule.
  */
  method Seed(height: nat, width: nat, plant: Pos -> bool, neighborhood: Pos -> seq<Pos>)
    returns (grid: Grid, schedule: seq<Tree>, conds: seq<Condition>)
    ensures grid.width == width && grid.height == height && grid.neighborhood == neighborhood
    ensures Placed(grid, schedule) && |conds| == |schedule|
    ensures forall p :: p in grid.cells ==> (grid.cells[p].Some? <==> plant(p))
    ensures forall i :: 0 <= i < |schedule| ==> conds[i] == if schedule[i].pos.0 == 0 then OnFire else Fine
  {
    grid := EmptyGrid(width, height, neighborhood);
    schedule, conds := [], [];
    for y := 0 to height
      invariant grid.width == width && grid.height == height && grid.neighborhood == neighborhood
      invariant SeededBefore(grid, schedule, conds, plant, 0, y)
    {
      for x := 0 to width
        invariant grid.width == width && grid.height == height && grid.neighborhood == neighborhood
        invariant SeededBefore(grid, schedule, conds, plant, x, y)
      {
        if plant((x, y)) {
          var created := NewTree(x, y);
          var tree, c := created.0, created.1;
          if x == 0 {
            c := OnFire;
          }
          SeedCell(grid, schedule, conds, plant, x, y, tree, c);
          grid := grid.(cells := grid.cells[tree.pos := Some(|schedule|)]);
          schedule := schedule + [tree];
          conds := conds + [c];
        } else {
          SkipCell(grid, schedule, conds, plant, x, y);
        }
      }
      NextRow(grid, schedule, conds, plant, y);
    }
    FinishSeeding(grid, schedule, conds, plant);
  }

  /** Planting a tree in the next cell of the visit extends what the loop has built. */
  lemma SeedCell(grid: Grid, schedule: seq<Tree>, conds: seq<Condition>, plant: Pos -> bool, x: int, y: int, tree: Tree, c: Condition)
    requires SeededBefore(grid, schedule, conds, plant, x, y)
    requires InBounds(grid.width, grid.height, (x, y)) && plant((x, y))
    requires tree == Tree((x, y), (x, y)) && c == if x == 0 then OnFire else Fine
    ensures SeededBefore(grid.(cells := grid.cells[tree.pos := Some(|schedule|)]), schedule + [tree], conds + [c], plant, x + 1, y)
  {
  }

  /** Leaving the next cell of the visit empty extends what the loop has built. */
  lemma SkipCell(grid: Grid, schedule: seq<Tree>, conds: seq<Condition>, plant: Pos -> bool, x: int, y: int)
    requires SeededBefore(grid, schedule, conds, plant, x, y) && !plant((x, y))
    ensures SeededBefore(grid, schedule, conds, plant, x + 1, y)
  {
  }

  /** A finished row of a width-wide grid is the start of the next row. */
  lemma NextRow(grid: Grid, schedule: seq<Tree>, conds: seq<Condition>, plant: Pos -> bool, y: int)
    requires SeededBefore(grid, schedule, conds, plant, grid.width, y)
    ensures SeededBefore(grid, schedule, conds, plant, 0, y + 1)
  {
  }

  /** Once every row is visited, exactly the planted cells hold trees. */
  lemma FinishSeeding(grid: Grid, schedule: seq<Tree>, conds: seq<Condition>, plant: Pos -> bool)
    requires SeededBefore(grid, schedule, conds, plant, 0, grid.height)
    ensures forall p :: p in grid.cells ==> (grid.cells[p].Some? <==> plant(p))
  {
  }

  /**
    The model: the grid, the schedule of registered trees, the condition of
    each registered tree, and the running flag. Trees are never added, removed
    or moved after seeding, so only the conditions and the flag change.
  */
  class ForestFire {
    const height: nat
    const width: nat
    const grid: Grid
    const schedule: seq<Tree>
    const condition: array<Condition>
    var running: bool

    /** The fixed structure: grid and schedule agree and each tree has a condition slot. */
    ghost predicate Wired()
    {
      && grid.width == width && grid.height == height
      && Placed(grid, schedule)
      && NeighborsInBounds(width, height, grid.neighborhood)
      && condition.Length == |schedule|
    }

    /** A model that has stopped running has no burning tree. */
    ghost predicate Valid()
      reads this, condition
    {
      Wired() && (!running ==> Count(condition[..], OnFire) == 0)
    }

    /**
      A new model: an empty grid of the given size, seeded from the planting
      mask, with the left column burning, and running.
    */
    constructor (height: nat, width: nat, plant: Pos -> bool, neighborhood: Pos -> seq<Pos>)
      requires NeighborsInBounds(width, height, neighborhood)
      ensures Valid() && fresh(condition) && running
      ensures this.height == height && this.width == width && grid.neighborhood == neighborhood
      ensures forall p :: p in grid.cells <==> InBounds(width, height, p)
      ensures forall p :: p in grid.cells ==> (grid.cells[p].Some? <==> plant(p))
      ensures forall i :: 0 <= i < |schedule| ==> condition[i] == if schedule[i].pos.0 == 0 then OnFire else Fine
    {
      this.height := height;
      this.width := width;
      var g, s, cs := Seed(height, width, plant, neighborhood);
      grid := g;
      schedule := s;
      condition := new Condition[|cs|](k requires 0 <= k < |cs| => cs[k]);
      running := true;
    }

    /** Tree i's turn: a burning tree sets its Fine neighbours on fire and burns out. */
    method StepTree(i: nat)
      requires Wired() && i < |schedule|
      modifies condition
      ensures condition[..] == TreeStep(grid, schedule, old(condition[..]), i)
      ensures old(condition[i]) != OnFire ==> forall j :: 0 <= j < condition.Length ==> condition[j] == old(condition[j])
      ensures old(condition[i]) == OnFire ==> condition[i] == BurnedOut
      ensures old(condition[i]) == OnFire ==> forall j :: 0 <= j < condition.Length && j != i ==>
        condition[j] == if j in NeighborTrees(grid, schedule, i) && old(condition[j]) == Fine then OnFire else old(condition[j])
    {
      if condition[i] == OnFire {
        var neighbors := grid.neighborhood(schedule[i].pos);
        for k := 0 to |neighbors|
          invariant forall j :: 0 <= j < condition.Length ==>
            condition[j] == if j in Occupants(grid, neighbors[..k]) && old(condition[j]) == Fine then OnFire else old(condition[j])
        {
          assert neighbors[..k + 1][..k] == neighbors[..k];
          match grid.cells[neighbors[k]]
          case Some(j) =>
            if condition[j] == Fine {
              condition[j] := OnFire;
            }
          case None =>
        }
        assert neighbors[..|neighbors|] == neighbors;
        condition[i] := BurnedOut;
      }
    }

    /** One scheduler pass: every registered tree takes its turn once, in `order`. */
    method ActivateAll(order: seq<nat>)
      requires Wired() && ActivatesEachOnce(order, |schedule|)
      modifies condition
      ensures condition[..] == Activate(grid, schedule, old(condition[..]), order)
    {
      for k := 0 to |order|
        invariant condition[..] == Activate(grid, schedule, old(condition[..]), order[..k])
      {
        assert order[..k + 1][..k] == order[..k];
        StepTree(order[k]);
      }
      assert order[..|order|] == order;
    }

    /** One tick: a full scheduler pass, then the model halts if no tree burns. */
    method Step(order: seq<nat>)
      requires Valid() && ActivatesEachOnce(order, |schedule|)
      modifies this, condition
      ensures Valid()
      ensures condition[..] == Activate(grid, schedule, old(condition[..]), order)
      ensures running == (old(running) && Count(condition[..], OnFire) != 0)
      ensures !running <==> Count(condition[..], OnFire) == 0
      ensures !old(running) ==> condition[..] == old(condition[..])
      ensures forall i :: 0 <= i < condition.Length ==> Rank(old(condition[i])) <= Rank(condition[i])
      ensures forall i :: 0 <= i < condition.Length && old(condition[i]) == OnFire ==> condition[i] == BurnedOut
      ensures Count(condition[..], Fine) <= old(Count(condition[..], Fine))
      ensures old(Count(condition[..], BurnedOut)) <= Count(condition[..], BurnedOut)
      ensures Count(condition[..], Fine) + Count(condition[..], OnFire) + Count(condition[..], BurnedOut) == |schedule|
    {
      ghost var before := condition[..];
      if !running {
        CountZero(before, OnFire);
        NoFireIsQuiescent(grid, schedule, before, order);
      }
      ActivateAll(order);
      var burning := CountType(OnFire);
      if burning == 0 {
        running := false;
      }
      forall i | 0 <= i < condition.Length && before[i] == OnFire
        ensures condition[i] == BurnedOut
      {
        assert multiset(order)[i] == 1;
        BurningTreeBurnsOut(grid, schedule, before, order, i);
      }
      AdvanceCounts(before, condition[..]);
      CountsSum(condition[..]);
    }

    /** The number of registered trees in condition c. */
    method CountType(c: Condition) returns (count: nat)
      requires Wired()
      ensures count == Count(condition[..], c)
    {
      count := 0;
      for k := 0 to |schedule|
        invariant count == Count(condition[..k], c)
      {
        assert condition[..k + 1][..k] == condition[..k];
        if condition[k] == c {
          count := count + 1;
        }
      }
      assert condition[..|schedule|] == condition[..];
    }
  }
}
