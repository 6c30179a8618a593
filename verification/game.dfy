/** The game controller of tetris.js: the active piece, the keydown handler bodies,
    rotation with its single wall kick, locking and respawning, and the frame counter
    that drives gravity. The random indices a bag refill needs are passed in as `picks`. */
module Game {
  import opened Shapes
  import opened Rotation
  import opened Playfield
  import opened Sequencer

  /** Where a new piece appears: column 3, row 0. */
  const SpawnX := 3
  const SpawnY := 0

  /** Gravity moves the piece down once every this many frames. */
  const DropInterval := 35

  /** The module-level state of tetris.js: the playfield, the active piece (kind, matrix,
      tetrominoX, tetrominoY), the bag `tetrominoSequence` and the frame counter `count`. */
  datatype State = State(
    grid: Grid,
    kind: PieceKind,
    matrix: Matrix,
    x: int,
    y: int,
    bag: seq<PieceKind>,
    count: int)

  datatype Key = ArrowLeft | ArrowRight | ArrowDown | ArrowUp | OtherKey

  /** The matrix is one of the four orientations of the kind's base matrix. */
  predicate IsOrientation(kind: PieceKind, m: Matrix) {
    exists k :: 0 <= k < 4 && m == RotateN(BaseMatrix(kind), k)
  }

  /** What the placement check and a rotation need: a well-formed field, a square
      matrix, and a row that is not above the field. */
  predicate Ready(s: State) {
    WellFormed(s.grid) && s.y >= 0 && IsSquare(s.matrix)
  }

  /** Ready, and every occupied cell of the active piece is on the field, which locking needs. */
  predicate Placed(s: State) {
    Ready(s) && InBounds(s.matrix, s.y, s.x)
  }

  /** The invariant of every reachable state. */
  predicate Inv(s: State) {
    Placed(s) && IsOrientation(s.kind, s.matrix) && 0 <= s.count < DropInterval
  }

  /** A base matrix (at most 4x4) placed at the spawn point lies on the field. */
  lemma SpawnInBounds(k: PieceKind)
    ensures InBounds(BaseMatrix(k), SpawnY, SpawnX)
  {
  }

  /** The state at start-up: an empty field, the first piece of a fresh bag at the
      spawn point, and the counter at zero. */
  function Init(picks: seq<int>): (s: State)
    requires ValidPicks(BagSize, picks)
    ensures Inv(s)
    ensures s.grid == EmptyGrid() && s.x == SpawnX && s.y == SpawnY && s.count == 0
    ensures s.matrix == BaseMatrix(s.kind) && |s.bag| == BagSize - 1
    ensures var d := NextPiece(AllKinds, [], picks); s.kind == d.kind && s.bag == d.bag
    ensures multiset(s.bag + [s.kind]) == multiset(AllKinds)
  {
    var d := NextPiece(AllKinds, [], picks);
    NextPieceDraws(AllKinds, [], picks);
    SpawnInBounds(d.kind);
    assert RotateN(BaseMatrix(d.kind), 0) == d.matrix;
    State(EmptyGrid(), d.kind, d.matrix, SpawnX, SpawnY, d.bag, 0)
  }

  // ---------------------------------------------------------------------------
  // Moves
  // ---------------------------------------------------------------------------

  /** The ArrowLeft (dx = -1) and ArrowRight (dx = 1) branches: the column changes
      exactly when the shifted placement is legal; otherwise nothing changes. */
  function Shift(s: State, dx: int): (r: State)
    requires Ready(s) && (dx == -1 || dx == 1)
    ensures Fits(s.grid, s.matrix, s.y, s.x + dx) ==> r == s.(x := s.x + dx)
    ensures !Fits(s.grid, s.matrix, s.y, s.x + dx) ==> r == s
    ensures Inv(s) ==> Inv(r)
  {
    if IsValidMove(s.grid, s.matrix, s.y, s.x + dx) then s.(x := s.x + dx) else s
  }

  /** The kick tried when a rotation in place fails: left near the right wall, right otherwise. */
  function Kick(x: int): (dx: int) {
    if x > 5 then -1 else 1
  }

  /** `rotateTetromino`: the rotated matrix is taken in place if legal; otherwise one
      kick of a single column is tried; otherwise nothing changes. */
  function RotatePiece(s: State): (r: State)
    requires Ready(s)
    ensures var rm := Rotate(s.matrix);
      && (Fits(s.grid, rm, s.y, s.x) ==> r == s.(matrix := rm))
      && (!Fits(s.grid, rm, s.y, s.x) && Fits(s.grid, rm, s.y, s.x + Kick(s.x)) ==>
            r == s.(x := s.x + Kick(s.x), matrix := rm))
      && (!Fits(s.grid, rm, s.y, s.x) && !Fits(s.grid, rm, s.y, s.x + Kick(s.x)) ==> r == s)
    ensures Inv(s) ==> Inv(r)
  {
    var rm := Rotate(s.matrix);
    RotationKeepsOrientation(s.kind, s.matrix);
    if IsValidMove(s.grid, rm, s.y, s.x) then s.(matrix := rm)
    else
      var nx := s.x + Kick(s.x);
      if IsValidMove(s.grid, rm, s.y, nx) then s.(x := nx, matrix := rm) else s
  }

  /** A quarter turn of an orientation is again an orientation of the same kind. */
  lemma RotationKeepsOrientation(kind: PieceKind, m: Matrix)
    requires IsSquare(m)
    ensures IsOrientation(kind, m) ==> IsOrientation(kind, Rotate(m))
  {
    if !IsOrientation(kind, m) {
      return;
    }
    var b := BaseMatrix(kind);
    var k :| 0 <= k < 4 && m == RotateN(b, k);
    if k == 3 {
      RotateFourTimes(b);
      assert Rotate(m) == RotateN(b, 0);
    } else {
      assert Rotate(m) == RotateN(b, k + 1);
    }
  }

  /** Locks the piece where it is, clears the full rows, and spawns the next piece of
      the bag at the spawn point (`placeTetromino`). The frame counter is untouched. */
  function LockAndSpawn(s: State, picks: seq<int>): (r: State)
    requires Placed(s) && ValidPicks(BagSize, picks)
    ensures var locked := Lock(s.grid, s.matrix, s.kind, s.y, s.x);
      r.grid == Empties(CountFull(locked)) + Remaining(locked)
    ensures forall i :: 0 <= i < Rows ==> !IsFull(r.grid[i])
    ensures r.x == SpawnX && r.y == SpawnY && r.count == s.count
    ensures r.matrix == BaseMatrix(r.kind)
    ensures var d := NextPiece(AllKinds, s.bag, picks); r.kind == d.kind && r.bag == d.bag
    ensures |s.bag| > 0 ==> r.kind == s.bag[|s.bag| - 1] && r.bag == s.bag[..|s.bag| - 1]
    ensures |s.bag| == 0 ==> multiset(r.bag + [r.kind]) == multiset(AllKinds) && |r.bag| == BagSize - 1
    ensures Inv(s) ==> Inv(r)
  {
    var locked := Lock(s.grid, s.matrix, s.kind, s.y, s.x);
    var d := NextPiece(AllKinds, s.bag, picks);
    NextPieceDraws(AllKinds, s.bag, picks);
    SpawnInBounds(d.kind);
    assert RotateN(BaseMatrix(d.kind), 0) == d.matrix;
    State(ClearRows(locked), d.kind, d.matrix, SpawnX, SpawnY, d.bag, s.count)
  }

  /** The ArrowDown branch, also the body of a gravity step: move one row down if legal,
      otherwise lock, clear and respawn. */
  function Drop(s: State, picks: seq<int>): (r: State)
    requires Placed(s) && ValidPicks(BagSize, picks)
    ensures Fits(s.grid, s.matrix, s.y + 1, s.x) ==> r == s.(y := s.y + 1)
    ensures !Fits(s.grid, s.matrix, s.y + 1, s.x) ==> r == LockAndSpawn(s, picks)
    ensures Inv(s) ==> Inv(r)
  {
    if !IsValidMove(s.grid, s.matrix, s.y + 1, s.x) then LockAndSpawn(s, picks)
    else s.(y := s.y + 1)
  }

  /** The keydown handler: the four arrows, and any other key ignored. */
  function KeyDown(s: State, key: Key, picks: seq<int>): (r: State)
    requires Placed(s) && ValidPicks(BagSize, picks)
    ensures key == ArrowLeft ==> r == Shift(s, -1)
    ensures key == ArrowRight ==> r == Shift(s, 1)
    ensures key == ArrowDown ==> r == Drop(s, picks)
    ensures key == ArrowUp ==> r == RotatePiece(s)
    ensures key == OtherKey ==> r == s
    ensures key != ArrowDown ==> r.grid == s.grid && r.kind == s.kind && r.y == s.y && r.bag == s.bag
    ensures r.count == s.count
    ensures Inv(s) ==> Inv(r)
  {
    match key
    case ArrowLeft => Shift(s, -1)
    case ArrowRight => Shift(s, 1)
    case ArrowDown => Drop(s, picks)
    case ArrowUp => RotatePiece(s)
    case OtherKey => s
  }

  // ---------------------------------------------------------------------------
  // Gravity
  // ---------------------------------------------------------------------------

  /** One animation frame of `loop`: the counter goes up, and when it reaches the drop
      interval it goes back to zero and the piece drops one step. */
  function Frame(s: State, picks: seq<int>): (r: State)
    requires Placed(s) && ValidPicks(BagSize, picks)
    ensures s.count + 1 < DropInterval ==> r == s.(count := s.count + 1)
    ensures s.count + 1 >= DropInterval ==> r == Drop(s.(count := 0), picks)
    ensures Inv(s) ==> Inv(r)
  {
    var c := s.count + 1;
    if c < DropInterval then s.(count := c) else Drop(s.(count := 0), picks)
  }

  /** `n` frames in a row, each with the same randomness. */
  function Frames(s: State, n: nat, picks: seq<int>): (r: State)
    requires Inv(s) && ValidPicks(BagSize, picks)
    ensures Inv(r)
    decreases n
  {
    if n == 0 then s else Frames(Frame(s, picks), n - 1, picks)
  }

  /** Gravity fires on every 35th frame: the frames before only count, and the one that
      brings the counter to 35 drops the piece and resets the counter. */
  lemma {:induction false} GravityCadence(s: State, n: nat, picks: seq<int>)
    requires Inv(s) && ValidPicks(BagSize, picks)
    requires s.count + n <= DropInterval
    ensures s.count + n < DropInterval ==> Frames(s, n, picks) == s.(count := s.count + n)
    ensures s.count + n == DropInterval ==> Frames(s, n, picks) == Drop(s.(count := 0), picks)
    decreases n
  {
    if n > 0 {
      var s1 := Frame(s, picks);
      if s.count + 1 < DropInterval {
        GravityCadence(s1, n - 1, picks);
        assert s1.(count := s1.count + (n - 1)) == s.(count := s.count + n);
        assert s1.(count := 0) == s.(count := 0);
      } else {
        assert n == 1;
      }
    }
  }

  // ---------------------------------------------------------------------------
  // Runs
  // ---------------------------------------------------------------------------

  /** An input to the engine: a key press, or a display frame. Each carries the random
      indices a bag refill would consume. */
  datatype Event = Press(key: Key, picks: seq<int>) | Tick(picks: seq<int>)

  predicate ValidEvents(events: seq<Event>) {
    forall e :: e in events ==> ValidPicks(BagSize, e.picks)
  }

  /** Applies one event: the keydown handler for a press, one frame of `loop` for a tick. */
  function Step(s: State, e: Event): (r: State)
    requires Placed(s) && ValidPicks(BagSize, e.picks)
    ensures Inv(s) ==> Inv(r)
  {
    match e
    case Press(key, picks) => KeyDown(s, key, picks)
    case Tick(picks) => Frame(s, picks)
  }

  /** Applies the events in order. */
  function Run(s: State, events: seq<Event>): (r: State)
    requires Inv(s) && ValidEvents(events)
    ensures Inv(r)
    decreases |events|
  {
    if |events| == 0 then s
    else Run(Step(s, events[0]), events[1..])
  }

  // ---------------------------------------------------------------------------
  // Spawns follow the bag
  // ---------------------------------------------------------------------------

  /** The event makes the piece drop (ArrowDown, or the frame on which the counter
      reaches the drop interval) while it cannot move down, so a new piece spawns. */
  predicate SpawnsOn(s: State, e: Event)
    requires Ready(s)
  {
    var stuck := !Fits(s.grid, s.matrix, s.y + 1, s.x);
    match e
    case Press(key, _) => key == ArrowDown && stuck
    case Tick(_) => s.count + 1 >= DropInterval && stuck
  }

  /** An event takes the next kind and the bag left over from `getNextTetromino` when
      it spawns, and leaves kind and bag alone otherwise. */
  lemma StepDraws(s: State, e: Event)
    requires Placed(s) && ValidPicks(BagSize, e.picks)
    ensures var r := Step(s, e);
      var d := NextPiece(AllKinds, s.bag, e.picks);
      && (SpawnsOn(s, e) ==> r.kind == d.kind && r.bag == d.bag)
      && (!SpawnsOn(s, e) ==> r.kind == s.kind && r.bag == s.bag)
  {
  }

  /** The randomness handed to `getNextTetromino` by the spawning events of a run, in order. */
  function SpawnPicks(s: State, events: seq<Event>): (rounds: seq<seq<int>>)
    requires Inv(s) && ValidEvents(events)
    ensures AllValid(BagSize, rounds)
    ensures |rounds| <= |events|
    decreases |events|
  {
    if |events| == 0 then []
    else
      var e := events[0];
      var rest := SpawnPicks(Step(s, e), events[1..]);
      if SpawnsOn(s, e) then
        assert ([e.picks] + rest)[1..] == rest;
        [e.picks] + rest
      else rest
  }

  /** The kinds of the pieces spawned during a run, in order. */
  function SpawnedKinds(s: State, events: seq<Event>): (kinds: seq<PieceKind>)
    requires Inv(s) && ValidEvents(events)
    decreases |events|
  {
    if |events| == 0 then []
    else
      var s1 := Step(s, events[0]);
      (if SpawnsOn(s, events[0]) then [s1.kind] else []) + SpawnedKinds(s1, events[1..])
  }

  /** During any run the pieces spawned are exactly the kinds the bag deals for the
      randomness the spawns consume, and the bag at the end is what the bag leaves. */
  lemma {:induction false} RunFollowsBag(s: State, events: seq<Event>)
    requires Inv(s) && ValidEvents(events)
    ensures SpawnedKinds(s, events) == Drawn(AllKinds, s.bag, SpawnPicks(s, events))
    ensures Run(s, events).bag == Left(AllKinds, s.bag, SpawnPicks(s, events))
    decreases |events|
  {
    if |events| > 0 {
      var e := events[0];
      var s1 := Step(s, e);
      StepDraws(s, e);
      RunFollowsBag(s1, events[1..]);
      var rest := SpawnPicks(s1, events[1..]);
      if SpawnsOn(s, e) {
        var rounds := [e.picks] + rest;
        assert rounds[0] == e.picks && rounds[1..] == rest;
      }
    }
  }

  /** From start-up, the first piece and every piece spawned after it are the draws of
      the bag, and every aligned run of seven of them holds each of the seven kinds
      exactly once. */
  lemma GameDealsEachKindOncePerRound(picks: seq<int>, events: seq<Event>)
    requires ValidPicks(BagSize, picks) && ValidEvents(events)
    ensures var s := Init(picks);
      var rounds := [picks] + SpawnPicks(s, events);
      var pieces := [s.kind] + SpawnedKinds(s, events);
      && AllValid(BagSize, rounds)
      && pieces == Drawn(AllKinds, [], rounds)
      && Run(s, events).bag == Left(AllKinds, [], rounds)
      && forall w, k: PieceKind :: 0 <= w && BagSize * w + BagSize <= |pieces| ==>
           multiset(Window(pieces, w))[k] == 1
  {
    var s := Init(picks);
    var later := SpawnPicks(s, events);
    var rounds := [picks] + later;
    assert rounds[0] == picks && rounds[1..] == later;
    RunFollowsBag(s, events);
    EveryCompleteRoundDealsEachKindOnce(rounds);
  }

  /** From start-up, under any inputs and any randomness, every occupied cell of the
      active piece stays on the 10-by-20 field, its row is never negative, and the
      field keeps its 20 rows of 10 cells. */
  lemma PieceStaysOnField(picks: seq<int>, events: seq<Event>)
    requires ValidPicks(BagSize, picks) && ValidEvents(events)
    ensures var s := Run(Init(picks), events);
      && WellFormed(s.grid) && s.y >= 0
      && forall r, c :: 0 <= r < |s.matrix| && 0 <= c < |s.matrix[r]| && s.matrix[r][c] == 1 ==>
           0 <= s.y + r < Rows && 0 <= s.x + c < Cols
  {
  }
}
