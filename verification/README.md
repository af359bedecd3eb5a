# Grid and movement planner of the INE5410 crowd simulation

This project models the sequential core of a multi-threaded crowd simulation.
Persons walk step by step towards individual goals on a shared 2-D grid that
also holds obstacles. The model covers the following, all taken from `grid.c`
and `grid.h`:

- position arithmetic (`mk_pos`, `pos_add`, `pos_equals`);
- the grid as a store of cells (`grid_init`, `grid_isvalid`, `grid_get`, `grid_set`, `grid_set_person`);
- the fixed table of eight neighbour offsets;
- person initialisation (`person_init`);
- the greedy planner `person_next_pos`.

Modules:

- `Positions`: `Pos`, `MkPos`, `PosAdd`, `PosEquals`, and the squared distance `SqDist`.
- `Persons`: the `Person` record, the person reference stored in cells, and `PersonInit`.
- `Grids`: the cell datatype `Cell = Empty | Obstacle | Occupant(who)`.
  - Row-major grid storage and the `GRID_OBJ_*` kinds.
  - The validity test and `Init`, `Get`, `Set`, `SetPerson`.
  - The neighbour table and its shape lemmas.
- `Planner`: the planner in two forms, plus the lemmas about it.
  - `NextPos` is the function form; its contract is the declarative argmin with the earliest-offset tie-break.
  - `PersonNextPos` is the loop over the offsets, written as in grid.c. It is proved equal to `NextPos`.
- `Scenarios`: worked grids. One is a wall that the planner walks away from. The other is an open grid where the first step is diagonal.
- `Options`: the optional value. It stands for a NULL grid, the prior value of `*out_person`, and the still-infinite `best_dist`.

Grid operations are pure. Each returns the new grid along with the C return
value. `grid_get` takes the prior value of `*out_person` and returns the value it
holds afterwards.

The code and the header disagree in two places, and the model follows the code
in both:

- Out-of-bounds access. The header says `grid_get`, `grid_set` and `grid_set_person` return `GRID_OBJ_INVALID` for a position outside the grid (grid.h:96, grid.h:122, grid.h:137). The code `assert`s validity instead (grid.c:47, grid.c:59, grid.c:68). So the three operations `require` a valid position.
- The grid.h:55-56 comment. It calls a position invalid when `x > width` or `y > height`. The definition at grid.h:72-73 and the code (grid.c:42) also reject `x == width` and `y == height`. `Grids.IsValid` follows those.

The planner's behaviour also differs from what a reader might expect:

- `best_dist` starts at `INFINITY` (grid.c:120), so the planner picks a free neighbour even when that neighbour is farther from the goal than the current cell.
- On a 3x3 grid with a full wall at x = 1, a person at (0, 1) heading for (2, 1) does not stall. The planner moves it to (0, 0). `Scenarios.WallMovesAway` proves this.

## Model

| member | source | states |
|---|---|---|
| Positions.MkPos | grid.c:11-14 | the constructed position has exactly the given coordinates |
| Positions.PosAdd | grid.c:18-21 | the sum is `mk_pos(a.x+b.x, a.y+b.y)` |
| Positions.PosEquals | grid.c:22-24 | the result is 0 or 1, and it is 1 exactly when the two positions are equal |
| Positions.SqDist | grid.c:15-17 | the distance measure is zero exactly for equal positions |
| Positions.SqDistOrder | grid.c:15-17 | for the exact real distances `pos_distance` computes (non-negative square roots of the squared distances), one pair is strictly closer than another exactly when its squared distance is smaller, and equally far exactly when the squared distances are equal |
| Positions.PosAddCancel | grid.c:18-21 | adding different offsets to one position gives different positions; only the zero offset leaves it in place |
| Persons.PersonInit | grid.c:88-94 | the new person has the given id, both positions at (-1, -1), and `time` and `last_move` at 0 |
| Grids.IsValid | grid.c:39-44 | a position is invalid exactly when x < 0, y < 0, x >= width or y >= height; with the NULL grid only the first two tests apply |
| Grids.KindOf | grid.h:80-83 | each stored cell maps to its own `GRID_OBJ_*` kind, and never to `GRID_OBJ_INVALID` |
| Grids.Init | grid.c:29-33 | the new grid has the requested size and every valid cell is EMPTY |
| Grids.Get | grid.c:46-56 | returns the kind of what the cell holds: EMPTY for an empty cell, OBSTACLE for an obstacle, PERSON for a person, never INVALID; for a person `*out_person` receives that person, otherwise it keeps its prior value |
| Grids.Set | grid.c:58-65 | returns the cell's previous kind; afterwards the cell reads back as the given kind; no other cell changes; the size is unchanged |
| Grids.SetPerson | grid.c:67-74 | returns the cell's previous kind; afterwards the cell reads back as PERSON with reference `h`; the record `h` refers to gets `current_pos` equal to the position, so the occupant read back there stands at it; every other person and every other cell is unchanged, including the person's former cell |
| Grids.Store | grid.c:61-63 | writing a cell changes that cell to the new content and leaves the size and every other cell as they were |
| Grids.NeighborOffset | grid.c:77-79 | each entry of `grid_neighbor_offsets` is a non-zero offset with both coordinates in {-1, 0, 1} |
| Grids.NeighborOffsetsShape | grid.c:76-83 | the `GRID_NEIGHBOR_COUNT` = 8 offsets of the table are pairwise distinct and non-zero, have coordinates in {-1, 0, 1}, and are listed row by row |
| Grids.OffsetIndex | grid.c:77-79 | every non-zero offset in the 3x3 block has a slot in the table holding exactly that offset |
| Grids.NeighborOffsetsComplete | grid.h:144-150 | an offset is in the table exactly when it is a non-zero offset of the 3x3 block |
| Planner.Candidate | grid.c:123-127 | offset `i` is considered exactly when the neighbour it reaches is inside the grid and reads back as EMPTY |
| Planner.AtRest | grid.c:106-108 | the early exit: the current or the goal position fails `grid_isvalid`, or the person is already at its goal |
| Planner.BestIndex | grid.c:120-133 | after scanning the first n offsets there is no choice exactly when no candidate was seen; otherwise the choice is a candidate at minimal distance to the goal, strictly closer than every earlier candidate |
| Planner.NextPos | grid.c:105-136 | with an invalid current or goal position, or at the goal, the person stays put; otherwise it stays exactly when no in-bounds EMPTY neighbour exists, and else it moves to the closest such neighbour, earliest in table order on ties |
| Planner.PersonNextPos | grid.c:105-136 | the offset scan with `best_dist` starting at infinity and a strict `<` computes the same position as `NextPos` |
| Planner.TieGoesToFirst | grid.c:129-132 | when the only two candidates are equally far from the goal, the planner takes the one listed first in the table |
| Planner.StrictlyClosestWins | grid.c:128-132 | a candidate strictly closer to the goal than every other candidate is the planner's choice |
| Planner.BestStepUnique | grid.c:129-132 | at most one offset satisfies the minimal-distance, earliest-on-ties rule, so the choice is deterministic |
| Planner.NextPosIsSafe | grid.c:122-127 | the planned position is the current one, or an in-bounds EMPTY cell adjacent to it |
| Planner.FreshPersonStays | grid.c:105-109 | the (-1, -1) position `person_init` sets fails `grid_isvalid` for any grid, and even for the NULL grid, so the planner leaves a freshly initialised person where it is |
| Planner.DirectStepImproves | grid.c:120-135 | when the cell one step straight towards the goal is EMPTY, the planned position is strictly closer to the goal |
| Planner.OpenGridApproaches | grid.c:29-33 | on a freshly initialised grid, every planned step brings a person with a valid, distinct goal strictly closer to it |
| Scenarios.WallStep | grid.c:120-135 | on any 3x3 grid with a full wall at x = 1 and a free column at x = 0, a person at (0, 1) heading for (2, 1) is sent to (0, 0), which is farther from the goal |
| Scenarios.WallMovesAway | grid.c:120-121 | behind a full wall the planner still moves, to the first free neighbour in table order, even though it is farther from the goal |
| Scenarios.DiagonalOnEmpty | grid.c:122-133 | on any empty 5x5 grid the first step from (0, 0) towards (4, 4) is the diagonal one |
| Scenarios.OpenGridDiagonal | grid.c:29-33 | on the grid `grid_init(5, 5)` produces, the first step from (0, 0) towards (4, 4) is the diagonal one, to (1, 1) |

## Left out

- Grids.Get: together with Grids.Set and Grids.SetPerson, a position outside the grid is excluded by `requires`. The code `assert`s validity there; the header's `GRID_OBJ_INVALID` return is not modelled.
- Grids.Set: the kind must be EMPTY or OBSTACLE. The code only aborts on `GRID_OBJ_PERSON`. Other raw integers, such as `GRID_OBJ_INVALID` or 3, are stored in the tag word as they are; the header forbids `GRID_OBJ_INVALID`, and the model does not represent the rest.
- Positions.SqDist: `pos_distance` computes `sqrt` in `double` and the planner compares it as a `float`. The model compares exact integer squares; `Positions.SqDistOrder` proves this agrees with comparing exact real distances. Float rounding, which could merge two distinct distances, is not modelled.
- Positions.PosAdd: C `int` overflow in `pos_add`, and in `width*height` in `grid_init`, is not modelled. Coordinates are unbounded integers.
- The pointer/`ptrdiff_t` tag punning in cell storage (grid.c:48-53, grid.c:61-64) is replaced by the abstract `Cell` datatype. A person reference is a natural number standing for the pointer's identity.
- A NULL grid passed to `grid_get`, `grid_set` or `grid_set_person` (a crash in C), and a NULL person passed to `grid_set_person`, cannot occur in the model.
- Planner.NextPos: `person_next_pos(p, NULL)` is not modelled; `NextPos` takes a grid. With a NULL grid the validity tests treat the grid as unbounded (grid.c:106, grid.c:124), and whenever both positions are non-negative and distinct the call then dereferences the NULL grid inside `grid_get` (grid.c:48). Only the early exit of that call is covered, through `Grids.IsValid` with `None`.
- `grid_destroy` only frees the cell storage, `person_destroy` has an empty body and releases nothing, and `person_join` only prints a message and aborts. None of them is modelled.
- The `time` and `last_move` fields are modelled only at initialisation, because no code in the core reads or updates them.
- The simulation engine (`simulation.c`) is not modelled. Its plug, unplug and start functions are empty stubs, and what they are meant to do is thread-pool and barrier concurrency.
- The scenario driver (`test.c`, `test.h`) and the command line (`main.c`) are not modelled. They handle file I/O, regex parsing, threads and timing.
