# Forest fire, modelled in Dafny

This project models the forest-fire example of the Mesa agent-based modelling
framework (`examples/ForestFire/ForestFire.py`). Trees stand on a
width × height grid. Each tree is Fine, On Fire or Burned Out. A random
scheduler activates every tree once per tick. An activated burning tree sets
each Fine neighbour on fire and then burns out. The model stops running once
a tick ends with no tree burning.

Files:

- `space.dfy`, module `Space`: the grid. Coordinates are `(x, y)` pairs. The
  grid maps every cell of the rectangle to an optional tree number. The
  neighbour enumeration is an abstract function of position that stays in
  bounds; no particular connectivity is assumed.
- `forest_fire.dfy`, module `Forest`: the tree conditions, the rule for one
  tree (`TreeStep`), one scheduler pass (`Activate`), counting (`Count`),
  repeated ticks (`Run`) and the lemmas about them. It also holds the seeding
  loop (`Seed`) and the class `ForestFire`. That class keeps the grid, the
  schedule, an array with one condition per registered tree, and the
  `running` flag. Its methods update the array and the flag in place.
- `row_example.dfy`, module `RowExample`: a row of three trees. It shows that
  the result of one tick depends on the activation order.

Tree number `i` is the `i`-th tree registered with the schedule.
`schedule[i]` holds its position and identifier, `condition[i]` its condition,
and the grid cell at its position holds the number `i`. Trees are never added,
removed or moved after seeding, so the grid and the schedule are `const`
fields. Only the condition array and `running` change.

Fire can spread more than one cell per tick. The code writes each
neighbour's condition at once (`ForestFire.py:40`). A tree set on fire earlier
in a tick, and activated later in the same tick, therefore spreads the fire
in that same tick. `RowExample.LeftToRightChains` shows a whole row burning in
one tick, and `RowExample.RightToLeftStops` shows the same start moving the
fire only one cell: the outcome of a tick depends on the activation order.
`Forest.FireDiesOut` bounds the number of ticks until no tree burns by the
number of trees not yet burned out.

## Model

| member | source | states |
|---|---|---|
| `Forest.NewTree` | examples/ForestFire/ForestFire.py:23-31 | a new tree's position and identifier are both `(x, y)`, and its condition is Fine |
| `Space.EmptyGrid` | examples/ForestFire/ForestFire.py:66 | a new grid covers exactly the cells of the width × height rectangle, and every cell is empty |
| `Space.Occupants` | examples/ForestFire/ForestFire.py:38 | the trees yielded for a list of cells are exactly those held by some in-grid cell of the list; empty cells yield nothing. `Forest.NeighborTrees` applies it to the grid's neighbourhood of a tree's position, which together model `neighbor_iter` |
| `Forest.TreeStep` | examples/ForestFire/ForestFire.py:33-41 | activating a tree only moves conditions forward; only that tree and its neighbours can change; a burning tree ends Burned Out |
| `Forest.ForestFire.StepTree` | examples/ForestFire/ForestFire.py:33-41 | a tree that is not burning changes nothing; a burning tree ends Burned Out, each Fine neighbour ends On Fire, and every other tree keeps its condition |
| `Forest.Activate` | examples/ForestFire/ForestFire.py:84 | a pass that activates trees one after another, each seeing its predecessors' writes, only moves conditions forward |
| `Forest.ActivationOrderIsPermutation` | examples/ForestFire/ForestFire.py:84 | an order that activates each registered tree exactly once is a permutation of the tree numbers and has one entry per tree |
| `Forest.ForestFire.ActivateAll` | examples/ForestFire/ForestFire.py:84 | the scheduler pass over the condition array gives exactly `Activate` of the old conditions in the given order |
| `Forest.Seed` | examples/ForestFire/ForestFire.py:69-77 | after seeding, exactly the planted cells hold trees; each tree stands in the cell holding its number, so each is registered once; trees in column 0 are On Fire and all others Fine |
| `Forest.ForestFire.constructor` | examples/ForestFire/ForestFire.py:51-78 | the new model covers the rectangle, holds trees exactly where planted, burns column 0, and is running |
| `Forest.ForestFire.Step` | examples/ForestFire/ForestFire.py:80-87 | after a tick `running` is false exactly when no tree burns; once false it stays false and the tick changes nothing; conditions only move forward; every tree burning before the tick is Burned Out; the Fine count does not grow; the Burned Out count does not shrink; the three counts sum to the number of trees |
| `Forest.ForestFire.CountType` | examples/ForestFire/ForestFire.py:89-98 | the scan returns the number of registered trees in the given condition |
| `Forest.Count` | examples/ForestFire/ForestFire.py:94-98 | a count never exceeds the number of trees |
| `Forest.CountIsMultiplicity` | examples/ForestFire/ForestFire.py:94-98 | the count equals the multiplicity of the condition among the trees' conditions |
| `Forest.CountZero` | examples/ForestFire/ForestFire.py:86 | a zero count means no tree has that condition, and the converse |
| `Forest.CountsSum` | examples/ForestFire/ForestFire.py:90-98 | the Fine, On Fire and Burned Out counts sum to the number of trees |
| `Forest.AdvanceCounts` | examples/ForestFire/ForestFire.py:37-41 | when conditions only move forward, the Fine count does not grow and the Burned Out count does not shrink |
| `Forest.AdvanceBurnsOne` | examples/ForestFire/ForestFire.py:41 | when conditions only move forward and one more tree burns out, the Burned Out count grows strictly |
| `Forest.NoFireIsQuiescent` | examples/ForestFire/ForestFire.py:37 | with no tree burning, a pass changes nothing |
| `Forest.BurnsUntilActivated` | examples/ForestFire/ForestFire.py:37-41 | a burning tree keeps burning until its own turn |
| `Forest.BurningTreeBurnsOut` | examples/ForestFire/ForestFire.py:37-41 | a tree burning at the start of a pass that activates it is Burned Out at the end |
| `Forest.FireReachesNeighbors` | examples/ForestFire/ForestFire.py:38-40 | a Fine neighbour of a tree burning at the start of a pass is no longer Fine at the end |
| `Forest.BurningPassProgresses` | examples/ForestFire/ForestFire.py:84 | while some tree burns, a pass that activates every tree once burns out at least one more tree |
| `Forest.Run` | examples/ForestFire/ForestFire.py:80-87 | repeated ticks only move conditions forward |
| `Forest.RunQuiescent` | examples/ForestFire/ForestFire.py:85-87 | once no tree burns, further ticks change nothing |
| `Forest.FireDiesOut` | examples/ForestFire/ForestFire.py:80-87 | whatever the activation orders, no tree burns after as many ticks as there are trees not yet burned out |
| `RowExample.LeftToRightChains` | examples/ForestFire/ForestFire.py:38-41 | in a burning row activated left to right, fire set earlier in the tick spreads again in the same tick, and the whole row burns out |
| `RowExample.RightToLeftStops` | examples/ForestFire/ForestFire.py:38-41 | the same row activated right to left only sets the middle tree on fire |

## Left out

- The random draw `random.random() < self.density` (`ForestFire.py:70`) is floating-point randomness. A planting mask `plant: Pos -> bool` replaces it, so `density` is not modelled.
- The scheduler's random shuffle is replaced by a caller-supplied order that names every registered tree exactly once. Randomness itself is not modelled.
- The grid library's internals (cell storage, `position_agent`, torus handling) are not part of this model. The grid is a value, and `neighbor_iter` is an abstract in-bounds neighbourhood function. The library's `coord_iter` is taken to visit the cells row by row; the order only affects how trees are numbered.
- `get_pos` (`ForestFire.py:43-44`) is a plain accessor of the position and is left out.
- Tree objects shared between the grid and the schedule are modelled by numbers: both the grid cell and the schedule refer to tree `i`, whose condition is slot `i` of one array. Python object identity is not modelled.
- The condition strings "Fine", "On Fire" and "Burned Out" are modelled as the three constructors of `Condition`. Other strings, which the code never assigns, are not represented.
- Visualisation, the server and batch-run drivers are external orchestration and are not modelled. The same goes for the framework's base `Model` and `Agent` classes.
