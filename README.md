# Chain-reaction game engine in Dafny

This project models the engine of a two-to-eight-player chain-reaction board game.

**Board.** The board is a grid of cells. Each cell has:
- a kind: corner, edge or inner;
- a capacity of 1, 2 or 3 that follows from its kind;
- an owner;
- a number of molecules.

**A move.** The player to move places a molecule on an empty cell or on one of their own. A cell holding more molecules than its capacity explodes:
- it empties;
- each orthogonal neighbour gains one molecule and the exploding cell's owner;
- any neighbour now over capacity explodes in turn, depth first, in neighbour order (up, down, left, right).

**After the cascade.** The game ends with a winner when two things hold: every player has taken a turn, and exactly one player has both taken a turn and owns a cell. Otherwise the turn passes to the next index of the player list.

## Modules

- `Models.dfy`: the value types of `game/Models.kt`.
  - A player is modelled by its id alone; names and colours are presentation only.
  - The cell carries the three transient fields that the resolver writes: `captureAnimation`, `previousOwner` and `explosionLevel`.
  - The game state is an immutable snapshot. Its turn map uses a missing entry as 0.
- `Board.dfy`: the geometry of `game/GameLogic.kt`.
  - Cell kind, capacity, the neighbour list and the empty board.
  - Board-wide notions: molecule total, ownership, "at rest" (no cell over capacity) and well-formed cells (no negative count, molecules exactly on owned cells).
- `Cascade.dfy`: the resolver `resolveExplosions`.
  - `Explode` is one explosion step. It clears the cell, then folds `Capture` over the neighbour list, which is the engine's loop.
  - `Resolve` and `ResolveAll` specify the depth-first recursion and the loop over neighbours.
  - The methods `ExplodeCell`, `ResolveExplosions`, `ExplodeAndResolve` and `ResolveNeighbours` run the engine's in-place steps. They reassign local copies of the grid and of the state, and are proved equal to the specification.
- `Placement.dfy`: `placeMolecule` and the initial state of a new game.
  - `Place` is the specification; `PlaceMolecule` is the engine's sequence of steps.
  - Lemmas state the turn rule, the ownership flow and the invariant kept from move to move.
- `Witness.dfy`: one concrete move on a 3 x 2 board whose completed cascade loses the placed molecule.

The resolver's recursion has no bound in the source. The model gives it a fuel parameter, the maximum recursion depth, and returns `None` when the fuel runs out. `ResolveFuelMonotone` shows that more fuel never changes a resolution that already completed, so the fuel only marks where the model stops looking.

### Behaviour worth knowing

The engine's code has several properties that are easy to get wrong when reading it.
- **Capacity and neighbours.** Capacity is not the neighbour count: on boards at least 2 x 2 it is one less (`Board.CapacityAndNeighbours`). A cell therefore explodes when its molecules reach its neighbour count. On a board one cell wide the two are equal. On the 1 x 1 board the single cell has capacity 1 and no neighbour. The setup screen restricts boards to at least 4 x 4.
- **Order of the cascade.** It is depth first and recursive, not level by level.
- **Molecule total.** The total is not conserved over a full cascade. An exploding cell is set to 0 molecules whatever it held, so a cell that received more than one molecule before its turn to explode loses the excess. `Cascade.ExplodeTotal` gives the exact change of one step. `Cascade.ExplodeConserves` gives the case where it is zero. `Witness.MoveLosesMolecule` exhibits a legal move from a board at rest that ends with the molecule total it had before the placement.
- **No players are skipped.** A player who owns nothing is not skipped when the turn passes (`Placement.PlaceOutcome`).
- **End of the game.** The game ends only if every player has played and exactly one player is active. A board where nobody is active does not end the game.

## Model

| member | source | states |
|---|---|---|
| Board.GetCellType | composeApp/src/commonMain/kotlin/com/yogeshpaliyal/chainreaction/game/GameLogic.kt:4-8 | corner iff x and y are both on a border, edge iff exactly one of them is, inner iff neither |
| Board.CellCapacity | composeApp/src/commonMain/kotlin/com/yogeshpaliyal/chainreaction/game/GameLogic.kt:10-14 | the capacity is between 1 and 3, and is 3 exactly for inner cells |
| Board.CreateInitialGrid | composeApp/src/commonMain/kotlin/com/yogeshpaliyal/chainreaction/game/GameLogic.kt:16-21 | height rows of width cells; cell [y][x] records x and y, has no owner and holds 0 molecules |
| Board.GetAdjacentCells | composeApp/src/commonMain/kotlin/com/yogeshpaliyal/chainreaction/game/GameLogic.kt:23-26 | every returned position lies on the grid |
| Board.AdjacentCellsExact | composeApp/src/commonMain/kotlin/com/yogeshpaliyal/chainreaction/game/GameLogic.kt:23-26 | a position is listed iff it is on the grid and orthogonally adjacent; the list is in up, down, left, right order, has no repeats and never holds the cell itself |
| Board.CapacityAndNeighbours | composeApp/src/commonMain/kotlin/com/yogeshpaliyal/chainreaction/game/GameLogic.kt:4-26 | neighbour count is capacity + 1 on boards at least 2 x 2, equals capacity on boards one cell wide, and is 0 (capacity 1) on 1 x 1 |
| Board.InitialGridAtRest | composeApp/src/commonMain/kotlin/com/yogeshpaliyal/chainreaction/game/GameLogic.kt:16-21 | the empty board holds no molecule, belongs to nobody, is at rest, and every cell is well formed (no owner and 0 molecules) |
| Cascade.SpreadCells | composeApp/src/commonMain/kotlin/com/yogeshpaliyal/chainreaction/game/GameLogic.kt:80-91 | the neighbour loop applied to distinct positions captures each listed cell exactly once and leaves all other cells as they were |
| Cascade.SpreadTotal | composeApp/src/commonMain/kotlin/com/yogeshpaliyal/chainreaction/game/GameLogic.kt:80-91 | the neighbour loop adds one molecule per listed position to the board total |
| Cascade.ExplodePointwise | composeApp/src/commonMain/kotlin/com/yogeshpaliyal/chainreaction/game/GameLogic.kt:75-91 | each cell after the engine's explosion step equals the independent cell-by-cell definition: the exploder is emptied, orthogonal neighbours are captured, and all other cells are unchanged |
| Cascade.ExplodeCells | composeApp/src/commonMain/kotlin/com/yogeshpaliyal/chainreaction/game/GameLogic.kt:75-91 | the exploder gets no owner and 0 molecules; each neighbour gets +1 molecule, the exploder's owner and explosionLevel = level + 1, with captureAnimation and previousOwner set exactly when a different existing owner was replaced; no other cell and no coordinates change |
| Cascade.ExplodeTotal | composeApp/src/commonMain/kotlin/com/yogeshpaliyal/chainreaction/game/GameLogic.kt:75-91 | one step changes the total by the neighbour count minus the exploder's molecules |
| Cascade.ExplodeConserves | composeApp/src/commonMain/kotlin/com/yogeshpaliyal/chainreaction/game/GameLogic.kt:75-91 | on boards at least 2 x 2, a step from exactly capacity + 1 molecules conserves the total |
| Cascade.ExplodeKeepsWellFormed | composeApp/src/commonMain/kotlin/com/yogeshpaliyal/chainreaction/game/GameLogic.kt:76-90 | exploding an overfull cell keeps every cell well formed: no molecule count is negative, and a cell holds molecules exactly when it has an owner (the exploder's owner passed to the neighbours exists because it held molecules) |
| Cascade.ExplodeCell | composeApp/src/commonMain/kotlin/com/yogeshpaliyal/chainreaction/game/GameLogic.kt:75-91 | the engine's clear-then-loop explosion yields exactly the explosion step |
| Cascade.Resolve | composeApp/src/commonMain/kotlin/com/yogeshpaliyal/chainreaction/game/GameLogic.kt:68-74 | a cell within its capacity leaves the grid unchanged; a completed resolution keeps the board's dimensions |
| Cascade.WithGrid | composeApp/src/commonMain/kotlin/com/yogeshpaliyal/chainreaction/game/GameLogic.kt:93 | lifting a grid result to a state replaces the grid and nothing else, and fails exactly when the grid result fails |
| Cascade.ResolveExplosions | composeApp/src/commonMain/kotlin/com/yogeshpaliyal/chainreaction/game/GameLogic.kt:68-106 | the engine's resolver returns the input state with only its grid replaced by the specified depth-first resolution, or None when the fuel runs out |
| Cascade.ExplodeAndResolve | composeApp/src/commonMain/kotlin/com/yogeshpaliyal/chainreaction/game/GameLogic.kt:75-105 | for an overfull cell, exploding it and then resolving its neighbours equals the specified resolution |
| Cascade.ResolveNeighbours | composeApp/src/commonMain/kotlin/com/yogeshpaliyal/chainreaction/game/GameLogic.kt:93-105 | the loop that resolves each overfull neighbour, threading the state through, equals the specified pass over the neighbours |
| Cascade.ResolveByMover | composeApp/src/commonMain/kotlin/com/yogeshpaliyal/chainreaction/game/GameLogic.kt:76-90 | while only the mover owns overfull cells, every owner change goes to the mover or to nobody, that stays so, and a mover who owned a cell still owns one (boards other than 1 x 1) |
| Cascade.FlowsShrinksOthers | composeApp/src/commonMain/kotlin/com/yogeshpaliyal/chainreaction/game/GameLogic.kt:76-90 | if ownership only flows to m, every other player's owned cells after are a subset of those before, so their count does not grow |
| Cascade.ResolveKeepsCoordinates | composeApp/src/commonMain/kotlin/com/yogeshpaliyal/chainreaction/game/GameLogic.kt:75-103 | resolution never changes any cell's x or y field |
| Cascade.ResolveKeepsWellFormed | composeApp/src/commonMain/kotlin/com/yogeshpaliyal/chainreaction/game/GameLogic.kt:74-103 | a completed resolution of a board whose cells are well formed leaves every cell well formed |
| Cascade.ResolveFuelMonotone | composeApp/src/commonMain/kotlin/com/yogeshpaliyal/chainreaction/game/GameLogic.kt:68-106 | a resolution that completes with some fuel gives the same result with any larger fuel |
| Cascade.ResolveSettles | composeApp/src/commonMain/kotlin/com/yogeshpaliyal/chainreaction/game/GameLogic.kt:74-103 | a resolution that starts with only (x, y) and the cells of S over capacity ends with only cells of S over capacity |
| Cascade.ResolveRests | composeApp/src/commonMain/kotlin/com/yogeshpaliyal/chainreaction/game/GameLogic.kt:96-103 | a board at rest except at (x, y) is at rest after a completed resolution of (x, y) |
| Placement.PlaceMolecule | composeApp/src/commonMain/kotlin/com/yogeshpaliyal/chainreaction/game/GameLogic.kt:28-66 | the engine's move (reject, place, count the turn, resolve from level 0, apply the turn rule) yields exactly the specified move |
| Placement.PlaceUnchanged | composeApp/src/commonMain/kotlin/com/yogeshpaliyal/chainreaction/game/GameLogic.kt:33-38 | a move returns its input state iff the game is over or the target belongs to a player other than the mover |
| Placement.PlacedCells | composeApp/src/commonMain/kotlin/com/yogeshpaliyal/chainreaction/game/GameLogic.kt:40-49 | before resolution the target gets the mover as owner and one more molecule; the mover's turn count rises by exactly 1; all other cells, all other counts and the rest of the state are unchanged |
| Placement.PlaceOwnership | composeApp/src/commonMain/kotlin/com/yogeshpaliyal/chainreaction/game/GameLogic.kt:40-52 | from a state where every overfull cell is the mover's (every state at rest is one, by ConsistentOverfullOwned), after a legal move with a completed cascade the mover owns a cell (boards other than 1 x 1), and no other player owns a cell that was not theirs before |
| Placement.PlacedKeepsWellFormed | composeApp/src/commonMain/kotlin/com/yogeshpaliyal/chainreaction/game/GameLogic.kt:40-44 | a legal placement keeps every cell well formed: the target gets the mover as owner together with one more molecule |
| Placement.PlaceOutcome | composeApp/src/commonMain/kotlin/com/yogeshpaliyal/chainreaction/game/GameLogic.kt:53-63 | the game ends iff every player has a positive turn count and exactly one entry of the player list is active, and then that player wins; otherwise the index becomes (old + 1) mod n, with no skipping, and the winner is unchanged |
| Placement.SoleActive | composeApp/src/commonMain/kotlin/com/yogeshpaliyal/chainreaction/game/GameLogic.kt:54-60 | the filtered active list has length 1 iff exactly one entry is active, and then it is that entry |
| Placement.ConsistentOverfullOwned | composeApp/src/commonMain/kotlin/com/yogeshpaliyal/chainreaction/game/GameLogic.kt:40-52 | in a state at rest no cell is over capacity, so the hypothesis of PlaceOwnership holds for every mover; with PlaceKeepsConsistent and InitialState it covers every move of a game |
| Placement.NoneActive | composeApp/src/commonMain/kotlin/com/yogeshpaliyal/chainreaction/game/GameLogic.kt:54-57 | the filtered active list is empty iff no entry is active |
| Placement.PlaceKeepsConsistent | composeApp/src/commonMain/kotlin/com/yogeshpaliyal/chainreaction/game/GameLogic.kt:28-66 | on a rectangular board at rest with well-formed cells (no negative count, molecules exactly on owned cells) and a valid turn index, any on-board move can be submitted; once its cascade completes, the board is again at rest with well-formed cells, the same dimensions and players, and the index is valid |
| Placement.InitialState | composeApp/src/commonMain/kotlin/com/yogeshpaliyal/chainreaction/ui/GameViewModel.kt:70-79 | a new game is running with no winner and player 0 to move; players have ids 0 .. n-1, all with 0 turns; nobody is active; the board is at rest and its cells are well formed, so the state is consistent; every board cell is a legal first move |
| Witness.MoveLosesMolecule | composeApp/src/commonMain/kotlin/com/yogeshpaliyal/chainreaction/game/GameLogic.kt:28-106 | from a consistent state holding 6 molecules (0 2 1 over 0 2 1, every non-empty cell player 0's), player 0's legal move on the top middle cell completes its cascade and ends on a board holding 6, not 7 (the proof steps through four explosions, the last at the top right corner holding 3 with two neighbours) |

## Left out

- User interface, animation and theming (the `ui/` rendering files, `App.kt`, the platform entry points): presentation only.
- The view model's click loop, which is coroutine and state-flow plumbing with delays. The helpers it calls (`runChainReactionStep`, `hasPendingExplosions`, `cleanupAnimationState`, `advanceTurn`) are not defined in any available file, so they are not part of this model. Only its initial state is modelled.
- Player names and colours: a player is its id.
- Cascade.Resolve: termination is not claimed. The recursion is bounded by fuel, and running out of fuel yields None where the engine would keep recursing or overflow its stack.
- Kotlin's 32-bit `Int` wrap-around for molecule counts, turn counts, the turn index and the explosion level (`level + 1` at each cascade depth). Integers here are unbounded; in play these counts stay far below 2^31.
- Out-of-bounds indexing, an empty grid and an out-of-range turn index raise exceptions in the engine. Here they are preconditions (`Placement.Placeable`, and `IsRect`/`InBounds` on the resolver).
- Placement.Placeable: it also requires every row to be as wide as the first. The engine reads the width from the first row, and every board it creates is rectangular.
