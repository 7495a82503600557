/**
  The spatial part of the forest-fire model: a fixed width × height grid whose
  cells are empty or hold one agent, and the neighbourhood relation the grid
  offers. The grid library itself is not part of this model; its neighbour
  enumeration is an abstract function of position that is only required to
  stay inside the rectangle (no particular 4- or 8-connectivity is assumed).
*/
module Space {

  /** A cell coordinate (x, y): x is the column, y the row. */
  type Pos = (int, int)

  datatype Option<T> = None | Some(value: T)

  /**
    A grid of width × height cells. `cells` maps every coordinate of the
    rectangle to the agent it holds (agents are numbered by the order in which
    they were registered), and `neighborhood(p)` lists the cells adjacent to p.
  */
  datatype Grid = Grid(width: nat, height: nat, cells: map<Pos, Option<nat>>, neighborhood: Pos -> seq<Pos>)

  predicate InBounds(width: nat, height: nat, p: Pos)
  {
    0 <= p.0 < width && 0 <= p.1 < height
  }

  /** Every coordinate of the rectangle, each exactly once. */
  function Coordinates(width: nat, height: nat): set<Pos>
  {
    set x, y | 0 <= x < width && 0 <= y < height :: (x, y)
  }

  /** A freshly created grid: every cell of the rectangle is empty. */
  function EmptyGrid(width: nat, height: nat, neighborhood: Pos -> seq<Pos>): (g: Grid)
    ensures g.width == width && g.height == height && g.neighborhood == neighborhood
    ensures forall p :: p in g.cells <==> InBounds(width, height, p)
    ensures forall p :: p in g.cells ==> g.cells[p] == None
  {
    Grid(width, height, map p | p in Coordinates(width, height) :: None, neighborhood)
  }

  /** Neighbour queries at a cell of the rectangle never leave the rectangle. */
  ghost predicate NeighborsInBounds(width: nat, height: nat, neighborhood: Pos -> seq<Pos>)
  {
    forall p, q :: InBounds(width, height, p) && q in neighborhood(p) ==> InBounds(width, height, q)
  }

  /** The agent held by cell p, as a set with at most one element. */
  function Occupant(g: Grid, p: Pos): set<nat>
  {
    if p in g.cells && g.cells[p].Some? then {g.cells[p].value} else {}
  }

  /**
    The agents found in the cells `ps`, as the grid's neighbour iteration
    yields them: empty cells and cells outside the grid contribute nothing.
  */
  function Occupants(g: Grid, ps: seq<Pos>): (ids: set<nat>)
    ensures forall i :: i in ids <==> exists k :: 0 <= k < |ps| && ps[k] in g.cells && g.cells[ps[k]] == Some(i)
    decreases |ps|
  {
    if ps == [] then {}
    else
      var ids := Occupants(g, ps[..|ps| - 1]) + Occupant(g, ps[|ps| - 1]);
      assert forall i :: i in ids ==> exists k :: 0 <= k < |ps| && ps[k] in g.cells && g.cells[ps[k]] == Some(i) by {
        forall i | i in ids
          ensures exists k :: 0 <= k < |ps| && ps[k] in g.cells && g.cells[ps[k]] == Some(i)
        {
          if i in Occupants(g, ps[..|ps| - 1]) {
            var k :| 0 <= k < |ps| - 1 && ps[..|ps| - 1][k] in g.cells && g.cells[ps[..|ps| - 1][k]] == Some(i);
            assert ps[k] == ps[..|ps| - 1][k];
          } else {
            assert ps[|ps| - 1] in g.cells && g.cells[ps[|ps| - 1]] == Some(i);
          }
        }
      }
      assert forall i :: (exists k :: 0 <= k < |ps| && ps[k] in g.cells && g.cells[ps[k]] == Some(i)) ==> i in ids by {
        forall i | exists k :: 0 <= k < |ps| && ps[k] in g.cells && g.cells[ps[k]] == Some(i)
          ensures i in ids
        {
          var k :| 0 <= k < |ps| && ps[k] in g.cells && g.cells[ps[k]] == Some(i);
          if k < |ps| - 1 {
            assert ps[..|ps| - 1][k] == ps[k];
          }
        }
      }
      ids
  }
}
