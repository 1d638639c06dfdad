# Traveling Snake: grid, snake, navigation policies and mask generation in Dafny

This project models the algorithmic core of an autonomous snake game played on
an H×W grid of nodes. A node `id` sits at column `id mod W`, row `id div W`.
The snake is a head-first sequence of node ids. The game follows a Hamiltonian
cycle of the grid, given as the table `path`, where `path[node]` is the node's
index along the cycle. On top of that cycle it may take shortcuts toward the
food.

The project has seven modules:

- `Nav` (`nav.dfy`) holds the grid primitives:
  - positions and node ids;
  - one-cell steps and the bounds check;
  - the 4-bit direction masks;
  - the direction between two nodes;
  - the forward distance along the cycle.
- `Snake` (`snake.dfy`) is the state transition of one move: eat, collide or shift.
- `MoveAlgo` (`move_algo.dfy`) holds the two navigation policies:
  - The cycle-following policy. Its module-level state is the class `FollowPath`.
  - The shortcut policy `find_next_shortcut_dir`, split into its budget and its two scans.
- `HamiltonCycleGenerator` (`hamilton_cycle_generator.dfy`) is the recursive walk that gives every cell of a half-resolution grid the direction it was entered from. It has its own direction enum: Up = 0, Down = 1, Left = 2, Right = 3, and Up increases y. `Nav` uses Up = 0, Right = 1, Down = 2, Left = 3, and Up decreases y.
- `NumpyOps` (`numpy_ops.dfy`) states the numpy primitives the code relies on: `np.roll`, `np.where(..)[0][0]` and `np.setdiff1d`.
- `Arith` (`arith.dfy`) holds small arithmetic lemmas.
- `Wrappers` (`wrappers.dfy`) holds `Option`.

Randomness becomes a parameter:

- `create_food` takes a `pick`. Every pick gives a free node, and every free node is the result of some pick.
- `generate_r` takes a direction oracle `rng` and a draw counter. Every property is proved for all oracles.

The Hamiltonian cycle is an input. The code that builds it is not part of this model. The cycle must satisfy `MoveAlgo.IsHamiltonCycle`:

- it is a permutation of [0, N);
- consecutive indices (mod N) are side-sharing cells.

## Model

| member | source | states |
|---|---|---|
| Nav.Dir.Value | nav.py:27-36 | The enum values are Up 0, Right 1, Down 2, Left 3; each is below 4 and is the direction's bit in a mask |
| Nav.DirOf | nav.py:27-36 | `Dir(v)` is the direction whose value is `v` |
| Nav.GetNextPos | nav.py:65-72 | The step leads to a side-sharing cell. Up is exactly the move that lowers y, Down raises y, Right raises x, Left lowers x |
| Nav.NextPosInjective | nav.py:65-72 | Different directions lead to different cells |
| Nav.IsDir | nav.py:98 | `is_dir(mask, d)` holds exactly when the mask has the bit of `d` set |
| Nav.SetDir | nav.py:98-125 | After `set_dir(mask, d)`, `is_dir(·, d)` holds. Every other direction and the unused high bits are unchanged |
| Nav.GetDirArray | nav.py:153-155 | The array has four entries; entry i is `Dir((i + start − offset) mod 4)`, a rotation of Up, Right, Down, Left |
| Nav.DefaultDirArray | nav.py:128-155 | With the default arguments the array is exactly Up, Right, Down, Left |
| Nav.IsOutOfBounds | nav.py:325 | A position that passes the bounds check has its row-major id `x + y·W` in [0, N); `InBoundsIffNode` gives the converse |
| Nav.InBoundsIffNode | nav.py:325 | A position passes the bounds check exactly when some node of the board sits there |
| Nav.GetNodePos | nav.py:195-197 | The position of a non-negative id has a column in [0, W) and satisfies `x + y·W = id`. Ids below N have a row below H |
| Nav.GetNodeId | nav.py:218-222 | The result is None exactly when the position is out of bounds. Otherwise it is a node in [0, N) whose position is the given one |
| Nav.NodeIdRoundTrip | nav.py:195-222 | For 0 ≤ id < N, `get_node_id(get_node_pos(id))` is id |
| Nav.NodePosInjective | nav.py:195-197 | Two non-negative ids with the same position are equal |
| Nav.GetNextNodeId | nav.py:246-249 | The result is None exactly when the step in direction d leaves the board. Otherwise it is the node in [0, N) whose position is the start's position stepped once in direction d, so it shares a side with the start |
| Nav.GetDirBetween | nav.py:272-280 | The result is None exactly when both nodes have the same position. For side-sharing nodes, the step in the returned direction reaches `end` |
| Nav.DirBetweenSteps | nav.py:246-280 | For side-sharing nodes, `get_next_node_id(start, get_dir_between(start, end))` is `end` |
| Nav.NextIndex | move_algo.py:48 | The successor index `(k + 1) mod n` lies in [0, n) |
| Nav.PathDistance | nav.py:303-305 | For indices in [0, N), the distance d lies in [0, N−1] and satisfies `(a + d + 1) mod N = b` |
| Nav.PathDistanceZero | nav.py:303-305 | The distance is 0 exactly when b is the cycle successor of a |
| Nav.PathDistanceSelf | nav.py:303-305 | The distance from an index to itself is N − 1 |
| Nav.PathDistanceUnique | nav.py:303-305 | The distance is the only d in [0, N) with `(a + d + 1) mod N = b` |
| NumpyOps.Roll | snake.py:51 | `np.roll(s, k)` keeps the length; element i of the result is element `(i − k) mod n` of the input |
| NumpyOps.WhereFirst | move_algo.py:158-159 | When v occurs in s, the result is the first index holding v |
| NumpyOps.SetDiff | snake.py:75 | The result holds exactly the values of `a` that are not in `b` |
| Snake.CreateEmptySnake | snake.py:15 | The body has length 0 |
| Snake.CreateFood | snake.py:74-78 | The result is −1 exactly when every node of `all_nodes` is on the body. Otherwise it is a node of `all_nodes` off the body, whatever the pick |
| Snake.CreateFoodReachesEveryFreeNode | snake.py:75-78 | Every free node is the food for some pick |
| Snake.Move | snake.py:43-54 | Moving onto the food gives `[food] + body` and new food that is −1 or off the new body. Otherwise, moving into any body cell, tail included, gives the empty body and keeps the food. Otherwise the body becomes `[head] + body[..len−1]` and the food is kept. The food check comes first |
| Snake.MovePreservesWellFormed | snake.py:43-54 | A move keeps three things: no node is on the body twice, every body node lies on the board, and the food is −1 or a board node off the body |
| MoveAlgo.DirBetweenConsecutive | move_algo.py:165-169 | On a Hamiltonian cycle, `get_dir_between` from a node to the node with the next cycle index is defined and steps there |
| MoveAlgo.StepsBelowExtend | move_algo.py:165-167 | Filling the entry at a node's cycle index with its step to the successor extends the finished part of the table by one index |
| MoveAlgo.CreatePathDirections | move_algo.py:156-172 | Given a Hamiltonian cycle, the table has N entries. From every node, the entry at its cycle index steps to the node with the next index, mod N, wrap-around entry included |
| MoveAlgo.FollowPath.constructor | move_algo.py:15-20 | The initial state has no table and index 0 |
| MoveAlgo.FollowPath.FindNextDir | move_algo.py:44-49 | Builds the table on first use and keeps it afterwards. Returns the entry at the old index and advances the index to `(index + 1) mod N` |
| MoveAlgo.FollowPath.SetPathDirIndex | move_algo.py:188-190 | The index becomes `path[head]` and the table is dropped |
| MoveAlgo.FollowPathFromHead | move_algo.py:44-190 | `set_path_dir_index(head)` followed by `find_next_dir` moves to the head's cycle successor and leaves the index at that successor's cycle index |
| MoveAlgo.CuttingBudget | move_algo.py:84-102 | The budget lies in [0, food_dist]. It is 0 when fewer than half the nodes are empty. Otherwise it is the tail distance less body length and 3, less 1 more when the food comes first, less 10 more when the food-to-tail gap exceeds a quarter of the empty nodes, clamped to [0, food_dist] |
| MoveAlgo.CanGo | move_algo.py:106-113 | `can_go` holds exactly for a move that stays on the board and off the body |
| MoveAlgo.FarthestFittingDir | move_algo.py:115-128 | After the scan, best_dist ≥ 0 exactly when some legal move fits the budget. Then best_dir is the fitting move farthest along the cycle, ties going to the earliest of Up, Right, Down, Left |
| MoveAlgo.FirstLegalDir | move_algo.py:133-136 | Returns the earliest legal move in Up, Right, Down, Left order, or None exactly when no move is legal |
| MoveAlgo.FindNextShortcutDir | move_algo.py:77-136 | A returned move is legal: on the board and off the body. None is returned exactly when all four neighbours are out of bounds or on the body. When a legal move fits the budget, the result is the farthest fitting move, earliest on ties. Otherwise it is the earliest legal move |
| MoveAlgo.CrowdedFitIsCycleSuccessor | move_algo.py:88-126 | When fewer than half the nodes are empty, a move that fits the budget goes to the head's cycle successor |
| MoveAlgo.CrowdedShortcutFollowsCycle | move_algo.py:88-172 | On such a crowded board, a fitting shortcut move is the very move the cycle-following table gives at the head's index |
| HamiltonCycleGenerator.Dir.Value | hamilton_cycle_generator.py:7-11 | The enum values are Up 0, Down 1, Left 2, Right 3, each below 4 |
| HamiltonCycleGenerator.GetNextPos | hamilton_cycle_generator.py:13-23 | Uses y-up: Up is exactly the move that raises y, Down lowers y, Right raises x, Left lowers x. Exactly one coordinate changes, by one |
| HamiltonCycleGenerator.IsDir | hamilton_cycle_generator.py:25-28 | `is_dir(mask, d)` holds exactly when the mask has the bit of `d` set |
| HamiltonCycleGenerator.SetDir | hamilton_cycle_generator.py:25-33 | After `set_dir(mask, d)`, `is_dir(·, d)` holds. Every other direction and the high bits are unchanged |
| HamiltonCycleGenerator.SetDirOnEmpty | hamilton_cycle_generator.py:33 | Setting one direction on the empty mask gives a mask with exactly that one direction |
| HamiltonCycleGenerator.GetSquare | hamilton_cycle_generator.py:35-36 | For a cell with column in [0, W) and row ≥ 0, the square is non-negative and its remainder and quotient by W give back the column and row; `GetSquareBijective`, `GetSquareInjective` and `SquareCell` add the range [0, W·H) and the converse |
| HamiltonCycleGenerator.GetSquareBijective | hamilton_cycle_generator.py:35-36 | `get_square` maps every in-bounds cell into [0, W·H), and the cell's column and row are recovered from the square |
| HamiltonCycleGenerator.GetSquareInjective | hamilton_cycle_generator.py:35-36 | Two in-bounds cells with the same square are the same cell |
| HamiltonCycleGenerator.GenerateR | hamilton_cycle_generator.py:52-87 | Out of bounds, or on a non-zero mask, the table is unchanged. A first visit from a real parent leaves a single-bit mask: the direction of the step from the parent into the cell. Non-zero masks are never overwritten; every mask stays empty or single-bit. Every cell first visited during the call, this one included, ends with all four neighbours visited or off the grid. On a 1×1 grid the root call leaves the table unchanged |
| HamiltonCycleGenerator.Explore | hamilton_cycle_generator.py:75-85 | After two random steps and the four fixed steps, every neighbour of the cell is visited or off the grid. Visited masks are kept, and the walk since the cell was written leaves every newly visited cell's neighbours visited. On a 1×1 grid every step is off the grid and the table is unchanged |
| HamiltonCycleGenerator.ClosedAfterVisit | hamilton_cycle_generator.py:68-85 | The cell's own write, followed by the loops' walk, leaves every newly visited cell with visited neighbours |
| HamiltonCycleGenerator.RootVisited | hamilton_cycle_generator.py:59-68 | The root is written 0 but is entered later from a visited neighbour once the grid has two cells |
| HamiltonCycleGenerator.EveryCellVisited | hamilton_cycle_generator.py:48-85 | After the top-level walk over an all-zero table, every cell of a grid with at least two cells has a non-zero mask |
| HamiltonCycleGenerator.Generate | hamilton_cycle_generator.py:42-48 | Halves the board into a (W/2)×(H/2) table of empty masks and walks from (0, 0). When that grid has at least two cells, every mask ends with exactly one direction, whatever the random draws. On a 2×2 board the single mask stays 0 |

## Left out

- game.py, draw_utils.py, graph_drawer.py and main.py are not part of this model. They cover the window event loop, drawing, plotting and entry point. `offset_pos` (snake.py:80-97) computes pixel coordinates in floating point and is also left out.
- The construction of the Hamiltonian cycle (a Prim tree unrolled into a cycle) is called by the game but is not in the generator module. The cycle is an input with the `IsHamiltonCycle` precondition.
- Random number generators become parameters. `create_food` takes an index `pick` into the free nodes. `generate_r` takes an oracle `rng` and a draw counter. The draw counter is a model device; the source draws from a fresh generator.
- The `isinstance` type checks that raise `TypeError` cannot fail in typed Dafny and are not modelled.
- numpy integer widths are not modelled: `np.int64` ids and indices are unbounded integers, and `np.int8` masks are `bv8`. Only bits 0 to 3 are ever set, so signedness does not matter.
- Nav.GetNodePos: requires a non-negative id. `id / W` truncated by `np.int64` is integer division only for non-negative ids.
- NumpyOps.SetDiff: keeps the order of `a`. `np.setdiff1d` also sorts and removes duplicates. The set of values is the same, and `CreateFood` is proved for every pick, so the set of possible foods is unchanged.
- NumpyOps.WhereFirst: requires that the value occurs. Without it, `np.where(..)[0][0]` raises IndexError. The only caller passes cycle indices, which all occur in a tour.
- Snake.Move: requires a non-empty body whose new head is on the board. `get_next_node_id` returns None off the board, and `move` has no branch for that case.
- MoveAlgo.FindNextShortcutDir: requires the food to be a board node. The game starts a new round whenever the food is −1. For −1, Python's `path[food]` would read the last entry of `path`.
- MoveAlgo.FindNextShortcutDir: requires a non-empty body (`HeadInput`). On an empty body, `snake[0]` at move_algo.py:79 raises IndexError; the model has no error result for that case.
- MoveAlgo.FindNextShortcutDir: the two loops are the helper methods `FarthestFittingDir` and `FirstLegalDir`. The straight-line budget code is the function `CuttingBudget`. The statements and their order are those of the source.
- MoveAlgo.CreatePathDirections: the array starts filled with Up where numpy starts with zeros. The difference is not visible on a Hamiltonian cycle, because `get_dir_between` never returns None there and every entry is written.
- MoveAlgo.FollowPath.FindNextDir: requires the index to be below N when no table exists yet. Otherwise `directions[dir_index]` would raise IndexError.
- HamiltonCycleGenerator.GenerateR: the contract does not say which mask the root cell ends with. It is 0 until a neighbour walks back into it. `Generate` proves that this happens on every grid with at least two cells.
- HamiltonCycleGenerator.Explore: is a separate method holding the two loops of `generate_r` (hamilton_cycle_generator.py:75-85). It is called after the cell is written. The steps and their order are those of the source.
- HamiltonCycleGenerator.Generate: does not model Python's recursion limit. `generate_r` recurses once per cell along the depth-first chain (hamilton_cycle_generator.py:80, 85). With the default limit of 1000 frames it can raise RecursionError when that chain nears 1000 cells, which only half-grids of about 1000 cells or more make possible. The model proves completion with single-bit masks for every even board with at least two half-cells, which holds only while the recursion depth stays within that limit.
- HamiltonCycleGenerator.Generate: requires even board sides and halves them with integer division. For odd sides, the source's float halving gives fractional bounds and squares, which are not modelled. It returns the table; the source prints it and discards it. The unused `hamilton_cycle` array and the print are left out.

## Cutting budget when the food comes first

The comment at move_algo.py:90 says the snake will eat the food on its way to
the tail, so the body will grow; the code accounts for this by subtracting 1
from the budget (move_algo.py:91-92).
`MoveAlgo.CuttingBudget` follows the code.
