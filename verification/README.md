# Falling-block game engine: a Dafny model of `tetris.js`

This project models the game-state engine of a single-file browser falling-block game
(`tetris.js`) and proves properties of it. The model covers the seven-piece shape
table, clockwise matrix rotation, the placement check `isValidMove`, locking a piece
and clearing full rows (`placeTetromino`), the bag sequencer (`getNextTetromino` with
its Fisher–Yates `shuffle`), the bodies of the keydown handler (left, right, down, up),
`rotateTetromino` with its single wall kick, and the frame counter of `loop` that
drives gravity.

Everything is pure: the module-level variables of the script (`playfield`,
`tetromino`, `tetrominoX`, `tetrominoY`, `tetrominoSequence`, `count`) become one
immutable `Game.State`, and every handler is a function from state to state.

Modules (one file each):

- `Shapes` (`shapes.dfy`): `PieceKind` (I, J, L, O, Z, S, T), matrices of 0/1 `Bit`s,
  the base matrix of each kind, and the key order `AllKinds` the bag is refilled in.
- `Rotation` (`rotation.dfy`): `Rotate` (row i of the result is column i read bottom
  to top), `RotateN`, the occupied-cell set of a matrix, and the lemmas about them.
- `Playfield` (`playfield.dfy`): the 20×10 grid of `Cell`s (`Empty` for the JS `0`,
  `Block(kind)` for a locked kind name); the placement check as a scan
  (`IsValidMove`) and as a declarative predicate (`Fits`); `Lock`; the backward
  row-clear scan `ClearFrom` and its result `ClearRows`.
- `Sequencer` (`sequencer.dfy`): `Swap`, `Shuffle`, `NextPiece`, and the bag
  properties over any number of draws (`Drawn`, `Left`).
- `Game` (`game.dfy`): the controller state, `Shift`, `RotatePiece`, `Drop`,
  `LockAndSpawn`, `KeyDown`, `Frame`, `Run`, the state invariant, and the proof that
  the pieces spawned during a run are the bag's draws.
- `Scenarios` (`scenarios.dfy`): worked cases on concrete fields.
- `Seqs` (`seqs.dfy`): `Reverse`, used by rotation and by the bag.

Randomness: `shuffle` calls `Math.random` once per step `i` (from the last index down
to 1). The model takes these indices as a list `picks`, the one for step `i` lying in
`[0, i]` (`ValidPicks`). Every operation that can refill the bag receives such a
list and uses it only when the bag is empty.

Two details of `tetris.js` shape the model:

- `isValidMove` (tetris.js:98-112) has no test against the top edge. For an occupied
  entry whose column lies on the field and whose field row is less than 20, it reads
  `playfield[cellRow + row][cellCol + col]`. When that field row is negative, the
  outer read gives `undefined` and the inner one throws. The playfield is never read
  for a zero entry, so a negative `cellRow` does no harm while only zero entries lie
  above the field. The model requires `row >= 0` of `IsValidMove`. Every call the game
  makes meets this: a spawn puts the piece at row 0, and between spawns the row only
  grows (`Game.PieceStaysOnField` proves `y >= 0` in every reachable state).
- The right-wall kick: a T piece in its third orientation at column 8, row 0 of an
  empty field cannot turn in place, because the turned matrix would reach column 10.
  Since 8 > 5 the kick is -1, and at column 7 the turn goes through
  (`Scenarios.TPieceKicksOffRightWall`).

## Model

| member | source | states |
|---|---|---|
| Shapes.BaseMatrix | tetris.js:8-44 | each kind's base matrix is square; it is 4×4 exactly for I, 2×2 exactly for O, and 3×3 for the rest |
| Shapes.AllKindsOnce | tetris.js:8-44 | the table's key list, the order a refill pushes kinds in, names each of the seven kinds exactly once |
| Rotation.Rotate | tetris.js:83-95 | the rotation of an N×N matrix is N×N with out[i][j] = in[N-1-j][i]; it is built as column i read bottom to top |
| Rotation.RotateTwice | tetris.js:83-95 | two quarter turns mirror the matrix through its centre |
| Rotation.RotateFourTimes | tetris.js:83-95 | four quarter turns give back the original square matrix |
| Rotation.BaseMatricesCycle | tetris.js:8-44 | every base matrix of the table comes back after four turns |
| Rotation.RotateKeepsOccupied | tetris.js:83-95 | a turn maps occupied cell (i, j) to (j, N-1-i): the occupied set is the turned set, with the same number of cells |
| Rotation.BaseHasFourCells | tetris.js:8-44 | every base shape has exactly four occupied cells |
| Rotation.EveryOrientationHasFourCells | tetris.js:83-95 | every orientation reached by turning keeps four occupied cells |
| Playfield.EmptyGrid | tetris.js:57-65 | the initial field has 20 rows of 10 cells, all empty |
| Playfield.IsValidMove | tetris.js:98-112 | true exactly when no occupied entry lands at column < 0, column ≥ 10, row ≥ 20 or on a non-empty cell (no top-edge test); true implies every occupied cell is on the field |
| Playfield.RowsClear | tetris.js:99-111 | the outer loop returns true exactly when no occupied entry in the remaining rows is blocked |
| Playfield.CellsClear | tetris.js:100-109 | the inner loop returns true exactly when no occupied entry in the rest of the row is blocked |
| Playfield.FitsInBounds | tetris.js:101-105 | a legal placement at a non-negative row puts every occupied cell inside rows 0..19 and columns 0..9 |
| Playfield.Lock | tetris.js:116-122 | the field keeps its shape; exactly the cells (row+r, col+c) under occupied entries get the piece's kind; every other cell is unchanged |
| Playfield.LockRows | tetris.js:116-122 | the outer write loop from row r on writes the kind under exactly the occupied entries of rows r and below |
| Playfield.LockCells | tetris.js:117-121 | the inner write loop from column c on writes the kind under exactly the occupied entries of that row from c on |
| Playfield.Remaining | tetris.js:126 | the non-full rows, in order, number the rows minus the full rows; each is a row of the input and none is full |
| Playfield.PrependEmpty | tetris.js:128 | an empty row put on top adds no full row and is itself kept |
| Playfield.FullRowStep | tetris.js:126-128 | splicing out a full row and putting an empty row on top leaves one full row fewer in the unscanned part and the same clear result |
| Playfield.ClearFrom | tetris.js:125-132 | the scan from index `row` (re-examining an index after a splice) terminates on (full rows above, index) and yields k empty rows, then the non-full rows of the unscanned part in order, then the scanned rows |
| Playfield.ClearRows | tetris.js:124-132 | the cleared field has 20 rows of 10 cells, no full row, CountFull empty rows on top and the old non-full rows in their order below |
| Playfield.NoFullRows | tetris.js:125-132 | rows none of which is full contain no full row to count and are all kept, in order |
| Playfield.ClearRowsIdempotent | tetris.js:125-132 | clearing a cleared field changes nothing |
| Sequencer.Swap | tetris.js:187 | the destructuring swap exchanges positions i and j, keeps the rest and keeps the multiset |
| Sequencer.ShuffleDown | tetris.js:185-188 | the loop from i down to 1 keeps length and multiset and leaves positions above i as they were |
| Sequencer.Shuffle | tetris.js:184-189 | for any legal random indices the shuffle keeps the length and the multiset of the array |
| Sequencer.ShuffleDownReaches | tetris.js:185-188 | every arrangement of the prefix a[..i+1] is the outcome of the loop for some legal indices |
| Sequencer.PickFor | tetris.js:186-187 | the index to pick at step i exists in [0, i], and after the swap the prefix before i holds the target's elements |
| Sequencer.ShuffleReachesEveryOrder | tetris.js:184-189 | every rearrangement of the array is the outcome of some legal random indices |
| Sequencer.NextPieceDraws | tetris.js:68-80 | a draw returns its kind's base matrix; from a non-empty bag it pops the last kind; from an empty bag it deals one kind of a fresh shuffled copy of the keys and leaves the others |
| Sequencer.DrawFromBag | tetris.js:76 | while the bag lasts, the k-th draw is the k-th kind from the end and the bag shrinks from the end |
| Sequencer.FirstDraw | tetris.js:69-79 | the first draw from an empty bag is the last kind of the shuffled refill of the keys, and the later draws and the final bag come from the refill without that kind |
| Sequencer.RestOfRound | tetris.js:76 | after the first draw of a round, the round's remaining draws take the refilled bag from its end and empty it |
| Sequencer.DrawSplit | tetris.js:68-80 | drawing for r1 + r2 is drawing for r1 and then for r2 from the bag left over |
| Sequencer.OneRound | tetris.js:68-80 | from an empty bag, |keys| draws are a rearrangement of the keys and leave the bag empty |
| Sequencer.EveryRoundIsAPermutation | tetris.js:68-80 | from an empty bag, every aligned window of seven draws is a rearrangement of the keys, and the bag is empty after each |
| Sequencer.BagDealsEachKindOncePerRound | tetris.js:68-80 | in the game's bag every aligned window of seven draws holds each kind exactly once |
| Sequencer.DrawnPrefix | tetris.js:68-80 | the draws for a prefix of the randomness are the prefix of the draws |
| Sequencer.EveryCompleteRoundIsAPermutation | tetris.js:68-80 | after any number of draws from an empty bag, every complete aligned window of seven is a rearrangement of the keys |
| Sequencer.EveryCompleteRoundDealsEachKindOnce | tetris.js:68-80 | in the game's bag, after any number of draws, every complete aligned window of seven holds each kind exactly once |
| Game.SpawnInBounds | tetris.js:134-136 | any base matrix placed at column 3, row 0 lies on the field |
| Game.Init | tetris.js:192-196 | the start state satisfies the invariant: an empty field, counter 0, and at (3, 0) the base orientation of the kind `getNextTetromino` deals from the empty bag; that kind and the six left in the bag are the seven kinds of one refill |
| Game.Shift | tetris.js:141-152 | the column moves by dx exactly when the shifted placement is legal; otherwise the state is unchanged; the invariant is kept |
| Game.RotationKeepsOrientation | tetris.js:167-172 | a quarter turn of one of the four orientations of a kind is again one of them |
| Game.RotatePiece | tetris.js:167-181 | the turned matrix is committed in place if legal; else only the single kick (-1 when X > 5, +1 otherwise) is tried and commits column and matrix together; else nothing changes; the invariant is kept |
| Game.LockAndSpawn | tetris.js:115-137 | the new field is the locked field with its full rows removed and as many empty rows on top; no row is full; the next kind and bag are exactly those `getNextTetromino` gives for the old bag: the bag's last kind when non-empty, otherwise one kind of a refill of all seven, with the other six left; the piece is in base orientation at (3, 0); the counter is untouched; the invariant is kept |
| Game.Drop | tetris.js:153-160 | the row grows by one exactly when that placement is legal; otherwise the piece locks, rows clear and the next piece spawns; the invariant is kept |
| Game.KeyDown | tetris.js:140-164 | ArrowLeft is a shift by -1, ArrowRight a shift by +1, ArrowDown a drop, ArrowUp a rotation, and any other key changes nothing; only ArrowDown can change the field, kind, row or bag; the counter is never touched; the invariant is kept |
| Game.Frame | tetris.js:196-212 | a frame increments the counter below 35; on reaching 35 it resets the counter and performs one drop; the invariant is kept |
| Game.GravityCadence | tetris.js:196-212 | frames that leave the counter below 35 only count; the frame that brings it to 35 is exactly a drop with the counter reset |
| Game.Step | tetris.js:140-212 | one key press or one frame keeps the invariant |
| Game.Run | tetris.js:140-212 | any sequence of key presses and frames keeps the invariant |
| Game.PieceStaysOnField | tetris.js:141-181 | from start-up, whatever the inputs and randomness, the field keeps 20×10 cells, the piece's row is non-negative and every occupied cell of the active piece lies inside rows 0..19 and columns 0..9 |
| Game.StepDraws | tetris.js:134-136 | an event that makes a stuck piece drop takes the kind and bag from `getNextTetromino` on the current bag; any other event leaves kind and bag alone |
| Game.SpawnPicks | tetris.js:134-136 | the randomness consumed by the spawns of a run is legal for every refill and has at most one entry per event |
| Game.RunFollowsBag | tetris.js:134-136 | the kinds spawned during any run are exactly the bag's draws for the randomness those spawns consume, and the final bag is what those draws leave |
| Game.GameDealsEachKindOncePerRound | tetris.js:68-80 | from start-up, the first piece followed by every spawned piece is the bag's draw sequence from an empty bag, and every complete aligned window of seven of them holds each kind exactly once |
| Scenarios.OPieceLandsOnFloor | tetris.js:98-122 | on an empty field an O piece fits at row 18, column 4 but not one row lower, and locking it there fills exactly (18,4), (18,5), (19,4), (19,5) |
| Scenarios.ClearOnlyBottomRow | tetris.js:125-132 | when only the bottom row is full, clearing removes it and shifts the other rows down under a new empty row |
| Scenarios.TBaseNearRightWall | tetris.js:98-112 | on an empty field the base T matrix is rejected at column 8 (its right end is at column 10) and accepted at column 7 |
| Scenarios.TPieceKicksOffRightWall | tetris.js:167-181 | a T piece in its third orientation at column 8 cannot turn in place, is kicked to column 7, and takes its base orientation |

## Left out

- Drawing: the canvas, `clearRect`/`fillRect`, the colour table and the pixel size
  `grid` (tetris.js:1-4, 46-54, 214-241). Only rendering depends on them. The script
  repaints only on frames where the counter fires, which is also a rendering detail.
- Host plumbing: `requestAnimationFrame` and `document.addEventListener`
  (tetris.js:140, 198, 244). The model covers the handler bodies (`Game.KeyDown`) and
  one counter step per frame (`Game.Frame`); `Game.Run` interleaves them in any order.
- `Math.random` (tetris.js:186) is replaced by explicit indices. The model proves that
  every permutation is reachable, but not that the shuffle is uniform, because that
  is a statement about probabilities.
- NextPiece: its contract lives in the lemma `Sequencer.NextPieceDraws` rather than on
  the function. This keeps the bag proofs from unfolding the shuffle of the literal
  key list.
- Game over: the code never checks the spawn position for overlap, and the model adds
  no terminal state. The invariant therefore says nothing about the piece overlapping
  locked cells after a spawn.
- Aliasing between `tetrominoes[name]` and the piece's matrix (tetris.js:77) cannot
  arise with immutable values. `rotate` returns a fresh matrix, so the script never
  mutates the table either.
- Lock requires the piece to be on the field. In the script a write to a row off the
  field throws. A write to a column of 10 or more lengthens the row, and a write to a
  negative column stores the kind under a non-index key of the row. `Game.PieceStaysOnField`
  shows that neither happens.
