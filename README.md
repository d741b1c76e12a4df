# Tetri-Survivor core, modelled in Dafny

Tetri-Survivor is a small arcade game. The player sits in the middle of an
endless grid. Tetrominoes spawn around the player:
- those of the player's colour flee, and the others hunt the player;
- touching tetrominoes fuse into WHITE clusters;
- a cluster loses every row or column holding ten or more cells, and
  scores 100 points for each;
- the cluster's remains break into 4-connected fragments. A fragment shaped
  exactly like a catalog piece becomes a free tetromino again. Every other
  fragment of four or more cells stays in the cluster, including a
  four-cell fragment that matches no catalog entry as drawn (a vertical I,
  say). Fragments of fewer than four cells vanish;
- the game ends when a tetromino touches the player's cell.

This project models the game logic of `tetrisurvivor.py`:
- the piece catalog and colour cycling;
- the tetromino object (rotation, hunting and fleeing steps);
- the shape algebra: adjacency, merging, flood fill, fragment handling and
  line destruction;
- one iteration of the main loop: events, movement stamina timers, the
  player's move, difficulty, spawning, and the movement, merge, line-clear
  and collision passes.

Each module keeps the form of the code it models. Code that changes
objects and lists in place becomes classes and methods:
- `Tetromino` and `World`;
- the flood fill and the fragment scan;
- the merge and line-clear passes, with their index cursors.

Each method is proved against a pure specification function:
`Rotated`, `Merged`, `Component`, `Fragmentation`, `Residual`, `Cleared`,
`MergeFrom`, `ClearFrom`, `Ticked` and the others. The properties the game
relies on are then proved about those functions.

Some of these functions carry no contract of their own, or only a range
bound, because they are the definitions the rest of the model is stated
against:
`Pieces.CheckAdjacent`, `Catalog.Match`, `Catalog.Cycled`, `Lines.Cleared`,
`Fragments.Component`, `Fragments.Fragmentation`, `Fragments.Extracted`,
`Pieces.Hunted`, `Pieces.Fled` and `Passes.Collision`. The lemmas about
them in the table below state what they mean.

Modules:
- `Grid` (grid.dfy): shapes as `seq<seq<bool>>`, filled cells, orthogonal
  touch, and the quarter turn.
- `Catalog` (catalog.dfy): `SHAPES` and `COLORS`, the exact-shape lookup, and
  `COLORS.index` with the colour cycle.
- `Pieces` (pieces.dfy):
  - the `Tetromino` class and its `Entity` value;
  - the hunt and flee steps;
  - `check_adjacent` and `merge_tetrominoes`.
- `Lines` (lines.dfy): `check_and_destroy_lines`.
- `Fragments` (fragments.dfy): `find_connected_squares` and
  `handle_fragments`.
- `Controls` (controls.dfy): the stamina timers, the player's move, the colour
  events, and the spawn rate and spawn counter.
- `Passes` (passes.dfy): the passes of `main` over the list of tetrominoes,
  stated on values, and the spawned piece.
- `Arena` (world.dfy): the `World` object with the game's globals, and one
  tick of `main` as methods proved equal to the pure `Ticked` outcome.

Units:
- Positions of tetrominoes are integer cells.
- The player's position is kept in integer tenths of a cell, since it moves
  by `PLAYER_SPEED = 0.1`. `int()` of it is truncation toward zero (`CellOf`).
- Movement timers are kept in half ticks, since they decay by 0.5 per tick.

The collision test of the game uses `check_adjacent`, which never counts
overlap. Overlap alone does not count: a single-cell entity on the player's
cell would not collide (`Pieces.OverlapIsNotAdjacency`).
`Passes.CollisionSpec` states the exact condition: some filled cell lies
orthogonally next to the player's cell. The entities the game produces have
no isolated cell (catalog pieces, their merges, and residuals made of
fragments of four or more cells), so one covering the player's cell also
covers a neighbour of it and ends the game; this is not proved here.

## Model

| member | source | states |
|---|---|---|
| Grid.Rotated | tetrisurvivor.py:80 | the quarter turn swaps the dimensions; row i, column j of the result is row R-1-j, column i of the input, so rows are read bottom-up |
| Grid.RotatedNWellFormed | tetrisurvivor.py:78-80 | any number of quarter turns keeps a rectangular shape with a filled cell rectangular and filled |
| Grid.RotatedFourTimes | tetrisurvivor.py:78-80 | four quarter turns give the original matrix back |
| Grid.HalfTurnTwice | tetrisurvivor.py:78-80 | two half turns give the original matrix back |
| Grid.RotatedTwice | tetrisurvivor.py:78-80 | a half turn reads the matrix backwards along both axes |
| Grid.Neighbours | tetrisurvivor.py:264 | the four cells pushed by the flood fill are exactly the cells orthogonally touching the popped one |
| Grid.Blank | tetrisurvivor.py:241 | the zero matrix has the requested rows and columns and no filled cell |
| Grid.TouchSymmetric | tetrisurvivor.py:228-231 | the orthogonal-touch test is symmetric |
| Catalog.CatalogFacts | tetrisurvivor.py:52-63 | seven entries; every shape is rectangular with exactly four cells; shapes and colours pairwise distinct; WHITE is not a piece colour |
| Catalog.ShapesDiffer | tetrisurvivor.py:52-60 | no two catalog shapes are equal |
| Catalog.MatchFromFinds | tetrisurvivor.py:295-298 | the scan from entry k finds a colour iff some later entry equals the shape, and then it is the colour of the first such entry |
| Catalog.MatchSpec | tetrisurvivor.py:295-302 | the lookup succeeds exactly for catalog shapes and yields that entry's colour |
| Catalog.RotatedPiecesUnmatched | tetrisurvivor.py:295-302 | a quarter turn of any piece but O matches no entry (orientation matters), while O is its own turn |
| Catalog.IndexFrom | tetrisurvivor.py:352 | the position found holds the colour and no earlier position does |
| Catalog.IndexOf | tetrisurvivor.py:352-354 | COLORS.index returns a position holding the colour |
| Catalog.IndexOfAt | tetrisurvivor.py:63 | the index of the colour at position k is k (colours distinct) |
| Catalog.CycledIndex | tetrisurvivor.py:352-354 | a colour change by step lands at index (index + step) mod 7 |
| Catalog.CycleRoundTrip | tetrisurvivor.py:352-354 | pressing E then Q, or Q then E, gives the colour back |
| Catalog.ForwardThenBack | tetrisurvivor.py:352-354 | E then Q gives the colour back |
| Catalog.BackThenForward | tetrisurvivor.py:352-354 | Q then E gives the colour back |
| Catalog.StepForward | tetrisurvivor.py:354 | E moves from position k to position (k + 1) mod 7 |
| Catalog.StepBack | tetrisurvivor.py:352 | Q moves from position k to position (k - 1) mod 7, wrapping from 0 to 6 |
| Pieces.Tetromino.constructor | tetrisurvivor.py:68-76 | a tetromino built with an explicit shape and colour has that origin, shape and colour and cooldown 0 |
| Pieces.Tetromino.Rotate | tetrisurvivor.py:78-80 | rotate(times) leaves the shape turned `times` quarter turns and changes nothing else |
| Pieces.Tetromino.MoveTowardsPlayer | tetrisurvivor.py:82-95 | the object's new value is the hunting step of its old value |
| Pieces.Tetromino.Repel | tetrisurvivor.py:97-110 | the object's new value is the fleeing step of its old value |
| Pieces.Step | tetrisurvivor.py:82-110 | with a running cooldown only the cooldown drops by one; otherwise exactly one coordinate moves by one, x iff abs(dx) > abs(dy), in the sign of the offset, y going up when dy <= 0; the cooldown restarts at 60; shape and colour never change |
| Pieces.HuntApproaches | tetrisurvivor.py:87-95 | with the player on a grid cell other than the origin, hunting shortens the Manhattan distance by one |
| Pieces.FleeRecedes | tetrisurvivor.py:102-110 | fleeing always adds one cell to the Manhattan distance from the player |
| Pieces.FleeOpposesHunt | tetrisurvivor.py:82-110 | fleeing steps opposite to hunting, except on the origin itself, where both step up (y - 1) |
| Pieces.ValsAppend | tetrisurvivor.py:389 | the values of two object lists joined are the joined values |
| Pieces.AdjacentSpec | tetrisurvivor.py:221-233 | check_adjacent holds iff some covered cell of one touches some covered cell of the other orthogonally |
| Pieces.AdjacentTouching | tetrisurvivor.py:221-233 | a hit of the nested search is an orthogonal touch of covered cells |
| Pieces.TouchingAdjacent | tetrisurvivor.py:221-233 | every orthogonal touch of covered cells is found by the nested search |
| Pieces.TouchingAt | tetrisurvivor.py:224-231 | two filled cells at touching global positions make the entities touch |
| Pieces.AdjacentSymmetric | tetrisurvivor.py:221-233 | adjacency is symmetric |
| Pieces.OverlapIsNotAdjacency | tetrisurvivor.py:228-231 | two one-cell entities on the same cell are not adjacent |
| Pieces.Overlay | tetrisurvivor.py:243-251 | an overlay keeps the canvas dimensions |
| Pieces.OverlayFilled | tetrisurvivor.py:243-251 | an overlay cell is set iff it was set or it is inside the canvas and its shifted-back cell is filled |
| Pieces.OverlayFitting | tetrisurvivor.py:243-251 | when the shape fits the box, an overlay cell is set iff it was set or its shifted-back cell is filled |
| Pieces.OverlayCells | tetrisurvivor.py:243-251 | the nested loop over a shape's filled cells writes exactly the overlay |
| Pieces.OverlayTwice | tetrisurvivor.py:241-251 | two fitting shapes overlaid on the zero matrix set a cell iff one of them fills it |
| Pieces.Merged | tetrisurvivor.py:235-254 | the merge has origin (min x, min y), the dimensions of the union bounding box, colour WHITE and cooldown 0 |
| Pieces.MergedFits | tetrisurvivor.py:236-251 | both shapes fit inside the merged box at their offsets, so no write is out of range |
| Pieces.MergedShapeAt | tetrisurvivor.py:241-251 | a cell of the merged matrix is set iff it is set in either input at its offset |
| Pieces.MergedCellAt | tetrisurvivor.py:235-254 | the merge covers a global cell iff either input covers it |
| Pieces.MergedCells | tetrisurvivor.py:235-254 | the merge covers exactly the union of the inputs' covered cells |
| Pieces.AdjacentToMerged | tetrisurvivor.py:221-254 | an entity is adjacent to a merge iff it is adjacent to one of its two parts |
| Pieces.MergedWellFormed | tetrisurvivor.py:235-254 | merging two rectangular shapes with filled cells gives one |
| Pieces.MergedIs | tetrisurvivor.py:241-253 | the merge is the zero matrix of the box overlaid with the first and then the second shape, at the minimum corner, WHITE |
| Pieces.MergeTetrominoes | tetrisurvivor.py:235-254 | merge_tetrominoes returns a new object whose value is the merge of the inputs' values |
| Lines.Count | tetrisurvivor.py:318 | sum(row) is at most the row's length |
| Lines.CountBounds | tetrisurvivor.py:318 | sum(row) is 0 iff no cell is filled, and the length iff every cell is |
| Lines.FullRowsUpToSpec | tetrisurvivor.py:317-319 | the first n rows' scan holds, ascending, exactly the full rows below n |
| Lines.FullRowsSpec | tetrisurvivor.py:316-319 | rows_to_remove holds, ascending, exactly the rows with sum >= 10 |
| Lines.FullColumnsUpToSpec | tetrisurvivor.py:322-324 | the first n columns' scan holds, ascending, exactly the full columns below n |
| Lines.FullColumnsSpec | tetrisurvivor.py:321-324 | cols_to_remove holds, ascending, exactly the columns with sum >= 10, judged on the original matrix |
| Lines.ShortNoFullColumns | tetrisurvivor.py:322-324 | a matrix of fewer than ten rows has no column summing to ten |
| Lines.FindFullRows | tetrisurvivor.py:316-319 | the row loop computes rows_to_remove |
| Lines.FindFullColumns | tetrisurvivor.py:321-324 | the column loop computes cols_to_remove |
| Lines.WithoutMembers | tetrisurvivor.py:327-330 | the filtered list holds exactly the elements at indices not dropped |
| Lines.WithoutAgree | tetrisurvivor.py:327-330 | only the dropped indices inside the list matter to the filter |
| Lines.WithoutLength | tetrisurvivor.py:327-330 | dropping distinct in-range indices shortens the list by their number |
| Lines.WithoutColumns | tetrisurvivor.py:330 | every surviving row loses exactly the dropped columns |
| Lines.ClearedDims | tetrisurvivor.py:326-330 | the cut matrix is (R - rows) by (C - columns) |
| Lines.ClearedRows | tetrisurvivor.py:326-330 | the rows of the cut matrix are exactly the non-full rows with the full columns removed |
| Lines.ClearedRowFrom | tetrisurvivor.py:327-330 | every row of the cut comes from a non-full original row |
| Lines.ClearedRowTo | tetrisurvivor.py:327-330 | every non-full original row survives the cut |
| Lines.ClearedEmpty | tetrisurvivor.py:326-330 | the cut removes every row iff every row is full |
| Lines.SomeFullRow | tetrisurvivor.py:316-319 | some row is removed iff some row is full |
| Lines.SomeFullColumn | tetrisurvivor.py:321-324 | some column is removed iff some column is full |
| Lines.LinesFoundSpec | tetrisurvivor.py:332-333 | something is destroyed iff some row or column is full |
| Lines.CheckAndDestroyLines | tetrisurvivor.py:311-337 | returns true iff a line is full; then the shape is the cut matrix and the score grows by 100 per line; otherwise shape and score are unchanged |
| Fragments.ConnectedRefl | tetrisurvivor.py:256-266 | a filled cell is connected to itself |
| Fragments.ConnectedFilled | tetrisurvivor.py:262 | a connection joins filled cells only |
| Fragments.ConnectedStep | tetrisurvivor.py:262-264 | a connection extends to a touching filled cell |
| Fragments.ConnectedSymmetric | tetrisurvivor.py:256-266 | connection is symmetric |
| Fragments.ConnectedTransitive | tetrisurvivor.py:256-266 | connection is transitive |
| Fragments.ComponentShared | tetrisurvivor.py:256-266 | every cell of a component has that same component |
| Fragments.ComponentOfStart | tetrisurvivor.py:262 | the component of an empty or out-of-range start is empty; a filled start is in its own |
| Fragments.ClosedHoldsPath | tetrisurvivor.py:260-264 | a set closed under stepping to a touching filled cell holds the end of every path from it |
| Fragments.FillStart | tetrisurvivor.py:257-258 | the empty set with the start on the stack satisfies the flood-fill invariant |
| Fragments.FillSkip | tetrisurvivor.py:261-262 | popping an empty, out-of-range or known cell keeps the invariant |
| Fragments.FillAdd | tetrisurvivor.py:261-264 | adding a new filled cell and pushing its neighbours keeps the invariant |
| Fragments.FillDone | tetrisurvivor.py:260-266 | with the stack empty, the set found is the whole component |
| Fragments.FindConnectedSquares | tetrisurvivor.py:256-266 | the flood fill returns exactly the 4-connected component of the start, empty when the start is empty or out of range |
| Fragments.ScanFragments | tetrisurvivor.py:269-277 | the visited scan returns the fragments in scan order, and they partition the filled cells into whole components |
| Fragments.ScanFromPartition | tetrisurvivor.py:272-277 | the rest of the scan completes a partial partition into a partition |
| Fragments.ScanFromCell | tetrisurvivor.py:272-277 | the same, from a cell inside the matrix |
| Fragments.FragmentationPartition | tetrisurvivor.py:269-277 | the fragments are non-empty, whole, pairwise disjoint components whose union is every filled cell |
| Fragments.ScanSkip | tetrisurvivor.py:274 | passing over an empty or visited cell keeps the scan invariant |
| Fragments.ScanAdd | tetrisurvivor.py:274-277 | appending the component of an unvisited filled cell keeps the scan invariant |
| Fragments.NewFragment | tetrisurvivor.py:275-277 | a new component is non-empty, whole, holds its start and is disjoint from the earlier fragments |
| Fragments.Least | tetrisurvivor.py:285-286 | min() of a non-empty set is a member below all others |
| Fragments.Greatest | tetrisurvivor.py:287-288 | max() of a non-empty set is a member above all others |
| Fragments.BoxBounds | tetrisurvivor.py:285-288 | every fragment cell lies inside the min/max box |
| Fragments.WindowCells | tetrisurvivor.py:290-292 | the window matrix is set exactly at the shifted fragment cells |
| Fragments.FragmentShapeCells | tetrisurvivor.py:285-292 | fragment_shape has the box's dimensions and is set exactly at the fragment's cells shifted by the minimum corner |
| Fragments.DepositCells | tetrisurvivor.py:301-306 | depositing a fragment sets exactly its in-range cells |
| Fragments.Residual | tetrisurvivor.py:280-306 | the residual matrix keeps the dimensions of the cluster's matrix, an empty one included |
| Fragments.ResidualCells | tetrisurvivor.py:280-306 | a residual cell is set iff it lies in the matrix and in some kept fragment |
| Fragments.ResidualOfPartition | tetrisurvivor.py:282-306 | a residual cell was filled before, and a cell of fragment i survives iff fragment i is kept (size > 4, or size 4 with no catalog match) |
| Fragments.OnlyFragment | tetrisurvivor.py:269-277 | in disjoint fragments a cell lies in one fragment only |
| Fragments.SmallFragmentsVanish | tetrisurvivor.py:283-306 | a fragment of fewer than four cells is in neither the residual nor any new tetromino |
| Fragments.PlacedCells | tetrisurvivor.py:297 | a new tetromino at origin + (min_x, min_y) with fragment_shape covers exactly the fragment's cells |
| Fragments.FragmentEntityCells | tetrisurvivor.py:297 | a new tetromino covers exactly its fragment's cells, in global coordinates |
| Fragments.FragmentEntityKind | tetrisurvivor.py:294-298 | a new tetromino is a catalog piece with that entry's colour and cooldown 0 |
| Fragments.FragmentEntityOrigin | tetrisurvivor.py:297 | only the cluster's origin matters to a new tetromino |
| Fragments.FromFragmentWitness | tetrisurvivor.py:294-298 | the tetromino of an extracted fragment is among the tetrominoes from fragments |
| Fragments.ExtractedFrom | tetrisurvivor.py:282-298 | the new tetrominoes are exactly those of the size-4 fragments matching a catalog entry |
| Fragments.ExtractedSource | tetrisurvivor.py:282-298 | each new tetromino comes from an extracted fragment |
| Fragments.UncoveredByExtracted | tetrisurvivor.py:282-298 | a cell in no extracted fragment is covered by no new tetromino |
| Fragments.UncoveredByFragment | tetrisurvivor.py:297 | a new tetromino covers no cell outside its fragment |
| Fragments.HandledStep | tetrisurvivor.py:282-306 | handling one more fragment extends the residual and the new-tetromino list by that fragment alone |
| Fragments.HandleFragment | tetrisurvivor.py:283-306 | one fragment is deposited iff it is kept, and yields one new tetromino iff it is extracted |
| Fragments.HandleNext | tetrisurvivor.py:282-306 | one turn of the loop extends the residual and the output by fragment k and keeps the earlier output |
| Fragments.HandleAll | tetrisurvivor.py:279-306 | the second loop builds the residual and the new tetrominoes, in fragment order, as distinct new objects |
| Fragments.HandleFragments | tetrisurvivor.py:268-309 | handle_fragments, on any rectangular matrix including one without rows, scans the fragments, replaces the shape by the residual and returns the new tetrominoes |
| Controls.GateStep | tetrisurvivor.py:359-369 | the timers stay in range; held with no cooldown, stamina grows by a tick, or on running out leaves timer 0 and cooldown COOLDOWN_TIME - 1; released with no cooldown, stamina decays by half a tick, floored at 0; a running cooldown drops by one while stamina decays |
| Controls.IdleDrains | tetrisurvivor.py:365-366 | with the key released and no cooldown, stamina drains by half a tick per tick down to zero and the cooldown stays zero |
| Controls.MovesSpec | tetrisurvivor.py:360-379 | a held key moves the player iff its cooldown is 1, or it is 0 and this tick does not exhaust its stamina |
| Controls.HoldingFills | tetrisurvivor.py:359-364 | from rest, holding a key for n < MAX_MOVEMENT_TIME ticks builds n ticks of stamina and moves the player every tick |
| Controls.HoldingLocks | tetrisurvivor.py:362-379 | holding a key for MAX_MOVEMENT_TIME ticks locks it, and the last of those ticks does not move |
| Controls.LockedRun | tetrisurvivor.py:365-369 | while the cooldown runs, input is ignored: each tick takes one off the cooldown and half a tick off the stamina |
| Controls.LockoutBlocks | tetrisurvivor.py:368-379 | a locked key moves the player on no tick before the cooldown has run out |
| Controls.CellOf | tetrisurvivor.py:74-75 | int() of a position in tenths truncates toward zero |
| Controls.PlayerMoved | tetrisurvivor.py:371-379 | x moves by D minus A and y by S minus W, each counted only when held with zero cooldown |
| Controls.ApplyEvents | tetrisurvivor.py:347-354 | the colour stays a catalog colour, and the loop reports a quit iff a quit event arrived |
| Controls.ApplyEventsHead | tetrisurvivor.py:347-354 | with no quit, the events are applied one after another |
| Controls.ApplyEventsNet | tetrisurvivor.py:350-354 | with no quit, the final colour is the start cycled by the net count of E minus Q presses |
| Controls.CycledZero | tetrisurvivor.py:352-354 | a cycle by zero keeps the colour |
| Controls.CycledTwice | tetrisurvivor.py:352-354 | cycling by a then by b is cycling by a + b |
| Controls.NextSpawnRate | tetrisurvivor.py:382-384 | every DIFFICULTY_INCREASE_INTERVAL ticks the rate drops by one, never below MIN_SPAWN_RATE; otherwise it is unchanged |
| Controls.RateAtClosed | tetrisurvivor.py:382-384 | after n ticks the rate is max(1, 60 - n / 1800) |
| Controls.DivStep | tetrisurvivor.py:383 | n / 1800 grows by one exactly at the multiples of 1800 |
| Controls.RateMonotone | tetrisurvivor.py:382-384 | spawn_rate never grows and never drops below MIN_SPAWN_RATE |
| Controls.SpawnTick | tetrisurvivor.py:387-390 | a counter that starts below the spawn interval stays below it after the tick; a spawn happens exactly when the counter reaches the interval, and the counter then restarts at zero |
| Controls.SpawnTickBounded | tetrisurvivor.py:382-390 | the counter stays below the rate even though the rate shrinks |
| Passes.MovedAll | tetrisurvivor.py:392-397 | the movement loop keeps the list's length, shapes and colours, and well-formedness |
| Passes.FirstAdjacent | tetrisurvivor.py:402-412 | the inner scan finds the first j adjacent to entity i, or reports that none from j on is |
| Passes.Pop | tetrisurvivor.py:408-409 | list.pop(k) removes exactly the element at k |
| Passes.Absorb | tetrisurvivor.py:406-409 | append, pop(j), pop(i): the list shrinks by one, the others keep their order, and the merge is last |
| Passes.AbsorbWellFormed | tetrisurvivor.py:406-409 | a merge keeps every shape well-formed |
| Passes.MergeFrom | tetrisurvivor.py:400-414 | the merge pass keeps shapes well-formed and never lengthens the list |
| Passes.AbsorbSettled | tetrisurvivor.py:404-413 | a merge at cursor i keeps the entities before i settled |
| Passes.MergeFromSettles | tetrisurvivor.py:400-414 | the pass from a settled cursor leaves no adjacent pair |
| Passes.MergePassSeparates | tetrisurvivor.py:400-414 | after the merge pass no two entities are adjacent |
| Passes.CoveredBy | tetrisurvivor.py:400-414 | an entity of the list covering a cell makes it covered |
| Passes.AbsorbCoversOld | tetrisurvivor.py:406-409 | a merge creates no covered cell |
| Passes.AbsorbCoversNew | tetrisurvivor.py:406-409 | a merge loses no covered cell |
| Passes.MergeFromCovers | tetrisurvivor.py:400-414 | the pass from any cursor keeps the covered cells |
| Passes.MergePassCovers | tetrisurvivor.py:400-414 | the merge pass neither creates nor loses a covered cell |
| Passes.WhitesAppend | tetrisurvivor.py:422 | cluster counts add up over joined lists |
| Passes.NoWhites | tetrisurvivor.py:297 | a list without WHITE entities counts no cluster |
| Passes.BornFacts | tetrisurvivor.py:294-298 | tetrominoes born from fragments are well-formed and none is a cluster |
| Passes.ResidualWellFormed | tetrisurvivor.py:280-308 | a residual with a filled cell is well-formed |
| Passes.Retained | tetrisurvivor.py:420-422 | a surviving cluster stays in place, its fragments are appended, and the clusters after it are as before |
| Passes.Popped | tetrisurvivor.py:420-426 | an emptied cluster is popped and the clusters after it are as before |
| Passes.ClearStep | tetrisurvivor.py:418-427 | every cursor step goes on with well-formed entities, never lowers the score, and strictly shrinks the clusters still ahead or else the entities ahead, so the pass ends |
| Passes.ClearFrom | tetrisurvivor.py:417-427 | the pass always finishes, leaving well-formed entities and a score no lower |
| Passes.StepSkips | tetrisurvivor.py:419-427 | a non-cluster, or a cluster without a full line, is passed over |
| Passes.StepEmptied | tetrisurvivor.py:420-426 | a cluster whose every row is full is popped with nothing re-emitted, its lines are scored and the cursor stays |
| Passes.OneRowClusterCleared | tetrisurvivor.py:417-427 | a cluster of one twelve-cell row scores 100 and is removed |
| Passes.StepKeeps | tetrisurvivor.py:420-427 | a cluster with something left keeps its place, its fragments are appended, the cursor moves on and the score grows by 100 per line |
| Passes.StepPops | tetrisurvivor.py:420-426 | a cluster with nothing left, including one that lost every row, is popped and the cursor stays |
| Passes.ClearFromIdle | tetrisurvivor.py:417-427 | when no cluster has a full line, the pass changes nothing |
| Passes.PlayerEntity | tetrisurvivor.py:430 | the 1x1 player entity covers exactly the player's truncated cell |
| Passes.CollisionSpec | tetrisurvivor.py:430-434 | the game ends iff some entity covers a cell orthogonally next to the player's cell |
| Passes.Spawned | tetrisurvivor.py:148-155 | a spawned piece is a well-formed catalog shape, turned, of that entry's colour, not WHITE, with cooldown 0 |
| Passes.FullTurns | tetrisurvivor.py:154 | a whole number of full turns leaves a piece unchanged |
| Arena.SpawnTetromino | tetrisurvivor.py:148-155 | spawn_tetromino returns a new object with the spawned value |
| Arena.KeyIndex | tetrisurvivor.py:359 | the position of a key in the W, A, S, D order |
| Arena.Stepped | tetrisurvivor.py:359-369 | the timer loop updates every key by its own gate step and keeps the timers in range |
| Arena.TimersStep | tetrisurvivor.py:359-369 | updating key n keeps the loop invariant |
| Arena.TimersDone | tetrisurvivor.py:359-369 | after all four keys the maps are the timer update |
| Arena.Initial | tetrisurvivor.py:40-49 | the start state satisfies every invariant of the game |
| Arena.Zeroes | tetrisurvivor.py:48-49 | the timer maps start with every key at zero |
| Arena.TimersTicked | tetrisurvivor.py:358-369 | the timer loop keeps the timers in range |
| Arena.Steered | tetrisurvivor.py:358-384 | timers, move and difficulty keep the timers in range, advance game_time by one, and leave the tetrominoes, counter, colour, score and game_over alone |
| Arena.PreparedOk | tetrisurvivor.py:356-390 | the bookkeeping keeps every invariant of the game |
| Arena.Prepared | tetrisurvivor.py:356-390 | the bookkeeping keeps the invariants, advances game_time by one, and appends a piece iff the counter reaches the rate |
| Arena.Swept | tetrisurvivor.py:392-434 | the passes keep the invariants and never lower the score |
| Arena.Advanced | tetrisurvivor.py:356-434 | after the event loop, a tick keeps the invariants, advances game_time by one and never lowers the score |
| Arena.Ticked | tetrisurvivor.py:346-434 | one iteration quits iff a quit event arrives; otherwise it keeps the invariants, advances game_time by one and never lowers the score |
| Arena.ValsPop | tetrisurvivor.py:408-409 | popping objects pops their values |
| Arena.ValsOne | tetrisurvivor.py:389 | the values of a one-object list |
| Arena.CutVals | tetrisurvivor.py:420-421 | changing one object changes one value |
| Arena.AbsorbVals | tetrisurvivor.py:406-409 | append, pop(j), pop(i) on the objects gives Absorb on the values |
| Arena.MergeFromStep | tetrisurvivor.py:401-414 | one step of the merge pass, unfolded |
| Arena.PoppedUpdate | tetrisurvivor.py:425 | popping position i forgets what was there |
| Arena.AppendDistinct | tetrisurvivor.py:389 | appending new objects keeps the list free of repeats |
| Arena.PopDistinct | tetrisurvivor.py:408-409 | popping keeps the list free of repeats |
| Arena.AbsorbDistinct | tetrisurvivor.py:406-409 | a merge with a new object keeps the list free of repeats |
| Arena.World.constructor | tetrisurvivor.py:40-49 | the world starts in the initial state |
| Arena.World.HandleEvents | tetrisurvivor.py:347-354 | the event loop leaves the colour and the quit flag the events call for |
| Arena.World.UpdateKey | tetrisurvivor.py:360-369 | one key's timers take their gate step |
| Arena.World.UpdateTimers | tetrisurvivor.py:359-369 | the timer loop leaves the maps the timer update gives |
| Arena.World.MovePlayer | tetrisurvivor.py:371-379 | the player takes the move the pressed keys and cooldowns allow |
| Arena.World.IncreaseDifficulty | tetrisurvivor.py:381-384 | game_time grows by one and spawn_rate takes its difficulty step |
| Arena.World.SpawnStep | tetrisurvivor.py:386-390 | the counter ticks and, on reaching the rate, a new object with the spawned value is appended |
| Arena.World.MoveAll | tetrisurvivor.py:392-397 | the movement loop gives each object its hunting or fleeing step in place |
| Arena.World.FindAdjacent | tetrisurvivor.py:402-412 | the inner while loop finds the first adjacent j > i |
| Arena.World.MergeFirst | tetrisurvivor.py:402-414 | without an adjacent j the list is untouched; otherwise the pair is replaced as Absorb says |
| Arena.World.MergePair | tetrisurvivor.py:406-409 | merge, append, pop(j), pop(i) on the objects |
| Arena.World.MergeAt | tetrisurvivor.py:401-414 | one cursor step of the merge pass, which shortens the list or advances the cursor |
| Arena.World.MergePass | tetrisurvivor.py:399-414 | the merge pass leaves the values MergeFrom gives |
| Arena.World.ClearAt | tetrisurvivor.py:418-427 | one cursor step of the line-clear pass does what ClearStep says |
| Arena.World.SplitAt | tetrisurvivor.py:420-427 | after the cut, the fragments are handled (an empty matrix too) and the list regrouped, as ClearStep says |
| Arena.World.Regroup | tetrisurvivor.py:421-427 | extend with the new tetrominoes, then pop the emptied cluster or advance |
| Arena.World.DropAt | tetrisurvivor.py:424-426 | an emptied cluster is popped and the cursor stays |
| Arena.World.LinePass | tetrisurvivor.py:416-427 | the line-clear loop leaves the list and score that ClearFrom gives |
| Arena.World.PlayerHit | tetrisurvivor.py:429-434 | the collision loop reports a hit iff some object is adjacent to the player entity |
| Arena.World.Steer | tetrisurvivor.py:358-384 | timers, move and difficulty, as Steered says |
| Arena.World.Prepare | tetrisurvivor.py:356-390 | the bookkeeping leaves the state Prepared gives |
| Arena.World.Shuffle | tetrisurvivor.py:392-414 | the movement loop and the merge pass |
| Arena.World.Settle | tetrisurvivor.py:416-434 | leaves the line pass's list and score, with game_over set by the collision test |
| Arena.World.Advance | tetrisurvivor.py:392-434 | the passes leave the state Swept gives, and keep the invariant |
| Arena.World.Play | tetrisurvivor.py:356-434 | everything after the event loop leaves the state Advanced gives, and keeps the invariant |
| Arena.World.Tick | tetrisurvivor.py:346-434 | one iteration of the main loop reports closed iff Ticked quits, and otherwise leaves Ticked's new state and keeps the invariant |

## Left out

- Rendering and the frame loop are not modelled. This covers
  `Tetromino.draw`, `draw_cooldown_meters`, `draw_background_grid`,
  `draw_player`, `draw_ui`, the screen fill and flip, `clock.tick`, and the
  final print. They only read the state.
- The particle system is not modelled: `Particle`, `create_particles`,
  `update_particles`, `draw_particles` and the random particle bursts. It is
  cosmetic, built on floats and randomness, and never read by the game
  logic.
- Randomness is taken as the `Spawn` input of a tick. Its fields are:
  - the truncated offset `(int(cos(angle) * 20), int(sin(angle) * 20))`;
  - the catalog index chosen by `random.choice`;
  - the number of quarter turns from `random.randint(0, 3)`.
- Passes.Spawned: accepts any integer offset and any number of turns. The
  source's offsets are limited to the circle of radius 20, and its turns to
  0..3. The trigonometry is not modelled.
- The random-shape branch of the `Tetromino` constructor is reached only
  through `spawn_tetromino`, and is modelled there.
- Input polling is reduced to data. `pygame.event.get` becomes a sequence
  of the three events the game reacts to (QUIT, K_q, K_e). All other events
  are dropped before the model. `key.get_pressed` becomes the set of held
  movement keys.
- Floating point is not modelled. The player's position is exact in tenths,
  while the source accumulates binary approximations of 0.1. Near a cell
  boundary, after many steps, `int()` of the source's value can differ by
  one from the model's. The 0.5 stamina decay is exact in both.
- The `while not game_over` loop itself is not modelled. `World.Tick` models
  one iteration. The sequence of ticks, and the program's end after a quit,
  are not.
- Some preconditions exclude ragged or empty matrices. On some of these
  inputs the source raises IndexError, and on others it computes a result
  the model does not cover:
  - `MergeTetrominoes` and `CheckAndDestroyLines` require a non-empty
    matrix, since both read the first row and raise IndexError on an empty
    one.
  - Both also require a rectangular matrix. `merge_tetrominoes` copies each
    row over its own length, so it merges a ragged shape without error.
    The column loop of `check_and_destroy_lines` raises only when a later
    row is shorter than the first.
  - `HandleFragments` requires a rectangular matrix. On a ragged one, a
    kept cell beyond the first row's width makes the source's write into
    the new matrix raise IndexError, where `Residual` would drop the cell.
    A matrix without rows is accepted, as in the source: it has no
    fragments and gives an empty matrix back.

  None of these inputs is reachable. Every entity in the game is
  rectangular and non-empty (`StateOk` keeps every shape well-formed, and a
  cut of a rectangular matrix is rectangular), so no tick of the model or of
  the source raises.
- Tetromino.Rotate: requires a rectangular shape. Its only caller turns a
  catalog shape, which is rectangular. On a ragged shape the source's
  transpose truncates every row to the shortest one and does not raise;
  that case is not modelled.
- Object identity is only partly modelled. The list of tetrominoes is
  assumed never to hold the same object twice (`Distinct`), which the
  source never does. Shapes are immutable values, since the source
  replaces shape lists and never mutates them in place.
