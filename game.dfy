/** The game state machine: the board, the falling and the next piece, the
    move timer, the score and the game-over flag; moves and rotations from the
    keyboard, soft drop, and one step of the fixed-rate update loop. */
module Game {
  import opened Basics
  import opened Pieces
  import opened Grids
  import opened SortedSets
  import opened Locking

  /** `FRAMES_PER_MOVE`: ticks between two automatic descents. */
  const FramesPerMove: u8 := 18

  /** `Move`: the four player moves checked against the board. */
  datatype Move = Left | Right | RotLeft | RotRight

  /** The key codes the game reacts to; every other key is `OtherKey`. */
  datatype KeyCode = KeyA | KeyLeft | KeyD | KeyRight | KeyQ | KeyE | KeyS | KeyDown | OtherKey

  datatype Command = Shift(m: Move) | SoftDrop

  /** The command bound to each key. */
  function CommandFor(k: KeyCode): (r: Option<Command>)
    ensures r.None? <==> k == OtherKey
    ensures r == Some(SoftDrop) <==> k == KeyS || k == KeyDown
    ensures r == Some(Shift(Left)) <==> k == KeyA || k == KeyLeft
    ensures r == Some(Shift(Right)) <==> k == KeyD || k == KeyRight
    ensures r == Some(Shift(RotLeft)) <==> k == KeyQ
    ensures r == Some(Shift(RotRight)) <==> k == KeyE
  {
    match k
    case KeyA | KeyLeft => Some(Shift(Left))
    case KeyD | KeyRight => Some(Shift(Right))
    case KeyQ => Some(Shift(RotLeft))
    case KeyE => Some(Shift(RotRight))
    case KeyS | KeyDown => Some(SoftDrop)
    case OtherKey => None
  }

  /** The candidate piece that `mv` builds before checking it. */
  function Moved(mp: MovingPiece, m: Move): (r: MovingPiece)
    ensures r.piece.colour == mp.piece.colour
    ensures m.Left? || m.Right? ==> r.piece == mp.piece && forall i :: 0 <= i < 4 ==>
      Cells(r)[i] == Pos(Cells(mp)[i].x + (if m.Left? then -1 else 1), Cells(mp)[i].y)
    ensures m.RotLeft? || m.RotRight? ==> r.pos == mp.pos
    ensures m.RotLeft? ==> forall i :: 0 <= i < 4 ==>
      Cells(r)[i].x - r.pos.x == Cells(mp)[i].y - mp.pos.y &&
      Cells(r)[i].y - r.pos.y == -(Cells(mp)[i].x - mp.pos.x)
    ensures m.RotRight? ==> forall i :: 0 <= i < 4 ==>
      Cells(r)[i].x - r.pos.x == -(Cells(mp)[i].y - mp.pos.y) &&
      Cells(r)[i].y - r.pos.y == Cells(mp)[i].x - mp.pos.x
  {
    PointsTranslate(mp.piece, mp.pos, if m.Left? then -1 else 1, 0);
    match m
    case Left => mp.(pos := Pos(mp.pos.x - 1, mp.pos.y))
    case Right => mp.(pos := Pos(mp.pos.x + 1, mp.pos.y))
    case RotLeft => mp.(piece := RotatedLeft(mp.piece))
    case RotRight => mp.(piece := RotatedRight(mp.piece))
  }

  /** The candidate one row further down. */
  function Descended(mp: MovingPiece): (r: MovingPiece)
    ensures r.piece == mp.piece
    ensures forall i :: 0 <= i < 4 ==> Cells(r)[i] == Pos(Cells(mp)[i].x, Cells(mp)[i].y + 1)
  {
    PointsTranslate(mp.piece, mp.pos, 0, 1);
    mp.(pos := Pos(mp.pos.x, mp.pos.y + 1))
  }

  /** Where the pivot of the falling piece can be: it spawns at (5, -2), only
      moves down, and only goes where its cells are free. */
  predicate InPlay(pos: Pos) {
    -2 <= pos.x <= 11 && -2 <= pos.y <= 21
  }

  predicate CellsFitI8(mp: MovingPiece) {
    forall i :: 0 <= i < 4 ==> FitsI8(Cells(mp)[i])
  }

  /** Every cell of `mp` is free or above the board. */
  predicate Unobstructed(b: Board, mp: MovingPiece)
    requires CellsFitI8(mp)
  {
    forall i :: 0 <= i < 4 ==> FreeOrAbove(b, Cells(mp)[i])
  }

  /** From a falling piece in play, every candidate the game builds, and each
      of its cells, has coordinates that fit in `i8`: the source's `i8`
      arithmetic never overflows. */
  lemma CandidatesFitI8(mp: MovingPiece)
    requires WellFormed(mp.piece) && InPlay(mp.pos)
    ensures CellsFitI8(mp) && CellsFitI8(Descended(mp)) && FitsI8(Descended(mp).pos)
    ensures forall m :: CellsFitI8(Moved(mp, m)) && FitsI8(Moved(mp, m).pos)
  {
    RotationKeepsWellFormed(mp.piece);
  }

  /** A piece whose cells are all free lies in play, provided it is not
      higher than the spawn row. */
  lemma UnobstructedInPlay(b: Board, mp: MovingPiece)
    requires WellShaped(b) && WellFormed(mp.piece) && CellsFitI8(mp)
    requires Unobstructed(b, mp) && -2 <= mp.pos.y
    ensures InPlay(mp.pos)
  {
    var p := Cells(mp)[0];
    assert FreeOrAbove(b, p);
    assert Small(mp.piece.offsets[0]);
  }

  /** The current piece after `mv`: the candidate when all of its cells are
      free or above the board, otherwise the piece as it was. */
  function AfterMove(b: Board, cur: Option<MovingPiece>, m: Move): (r: Option<MovingPiece>)
    requires cur.Some? ==> WellFormed(cur.value.piece) && InPlay(cur.value.pos)
    ensures cur.None? ==> r.None?
    ensures cur.Some? ==> r == cur || r == Some(Moved(cur.value, m))
  {
    match cur
    case None => None
    case Some(mp) =>
      CandidatesFitI8(mp);
      if Unobstructed(b, Moved(mp, m)) then Some(Moved(mp, m)) else cur
  }

  /** A move or rotation changes the piece exactly when the candidate is
      free, and then the piece becomes the candidate. */
  lemma {:induction false} AfterMoveChangesIffFree(b: Board, mp: MovingPiece, m: Move)
    requires WellFormed(mp.piece) && InPlay(mp.pos)
    ensures CellsFitI8(Moved(mp, m))
    ensures AfterMove(b, Some(mp), m) != Some(mp) <==> Unobstructed(b, Moved(mp, m))
    ensures AfterMove(b, Some(mp), m) == Some(mp) || AfterMove(b, Some(mp), m) == Some(Moved(mp, m))
  {
    CandidatesFitI8(mp);
    var o := mp.piece.offsets;
    if m.RotLeft? || m.RotRight? {
      // A quarter turn fixes only the pivot, and at most one offset is the pivot.
      var i := if o[0] != Pos(0, 0) then 0 else 1;
      assert o[i] != Pos(0, 0);
      assert Moved(mp, m).piece.offsets[i] != o[i];
    }
  }

  /** Moving left with a cell already in column 0 leaves the piece where it is. */
  lemma LeftWallBlocks(b: Board, mp: MovingPiece, i: int)
    requires WellShaped(b) && WellFormed(mp.piece) && InPlay(mp.pos)
    requires 0 <= i < 4 && Cells(mp)[i].x == 0
    ensures AfterMove(b, Some(mp), Left) == Some(mp)
  {
    CandidatesFitI8(mp);
    assert Cells(Moved(mp, Left))[i].x == -1;
    assert !FreeOrAbove(b, Cells(Moved(mp, Left))[i]);
  }

  /** Moving right with a cell already in the last column leaves the piece
      where it is. */
  lemma RightWallBlocks(b: Board, mp: MovingPiece, i: int)
    requires WellShaped(b) && WellFormed(mp.piece) && InPlay(mp.pos)
    requires 0 <= i < 4 && Cells(mp)[i].x == Width - 1
    ensures AfterMove(b, Some(mp), Right) == Some(mp)
  {
    CandidatesFitI8(mp);
    assert Cells(Moved(mp, Right))[i].x == Width;
    assert !FreeOrAbove(b, Cells(Moved(mp, Right))[i]);
  }

  /** The first step of every tick: the timer advances by one and, once past
      `FramesPerMove`, drops back by `FramesPerMove` and asks for a descent. */
  function Advance(frames: u8): (r: (u8, bool))
    requires frames < 255
    ensures r.0 as int + (if r.1 then FramesPerMove as int else 0) == frames as int + 1
    ensures r.1 <==> frames >= FramesPerMove
    ensures frames <= FramesPerMove ==> 1 <= r.0 <= FramesPerMove
  {
    var f := frames + 1;
    if f > FramesPerMove then (f - FramesPerMove, true) else (f, false)
  }

  /** `GameState`, with the random generator replaced by the draws its
      callers pass in. */
  class GameState {
    const grid: Grid
    var gameover: bool
    var moveFrames: u8
    var score: nat
    var nextPiece: Piece
    var curPiece: Option<MovingPiece>

    ghost predicate Valid()
      reads this, grid, grid.rows
    {
      grid.Valid() &&
      WellFormed(nextPiece) &&
      (curPiece.Some? ==> WellFormed(curPiece.value.piece) && InPlay(curPiece.value.pos))
    }

    /** `GameState::new`: an empty board, no falling piece yet, and the next
        piece drawn as `draw`. */
    constructor (draw: int)
      requires 0 <= draw < 7
      ensures Valid() && fresh(grid) && fresh(grid.rows)
      ensures grid.Cells() == EmptyBoard()
      ensures !gameover && moveFrames == 0 && score == 0
      ensures nextPiece == Shape(draw) && curPiece == None
    {
      grid := new Grid();
      gameover := false;
      nextPiece := Shape(draw);
      curPiece := None;
      moveFrames := 0;
      score := 0;
    }

    /** `GameState::mv`: builds the moved or rotated copy of the falling
        piece and keeps it only if every one of its cells is free. */
    method Mv(m: Move)
      requires Valid()
      modifies this`curPiece
      ensures Valid()
      ensures curPiece == AfterMove(grid.Cells(), old(curPiece), m)
    {
      if curPiece.Some? {
        var mp := curPiece.value;
        var newMp := mp;
        match m {
          case Left => newMp := newMp.(pos := Pos(newMp.pos.x - 1, newMp.pos.y));
          case Right => newMp := newMp.(pos := Pos(newMp.pos.x + 1, newMp.pos.y));
          case RotLeft =>
            var p := RotateLeft(newMp.piece);
            newMp := newMp.(piece := p);
          case RotRight =>
            var p := RotateRight(newMp.piece);
            newMp := newMp.(piece := p);
        }
        CandidatesFitI8(mp);
        RotationKeepsWellFormed(mp.piece);
        assert newMp == Moved(mp, m);
        var pts := Cells(newMp);
        for i := 0 to 4
          invariant forall j :: 0 <= j < i ==> FreeOrAbove(grid.Cells(), pts[j])
        {
          if !FreeOrAbove(grid.Cells(), pts[i]) {
            return;
          }
        }
        UnobstructedInPlay(grid.Cells(), newMp);
        curPiece := Some(newMp);
      }
    }

    /** `GameState::move_down` (soft drop): half a period more on the timer.
        It does not look at the falling piece. */
    method MoveDown()
      requires Valid()
      requires moveFrames as int + (FramesPerMove / 2) as int <= 255
      modifies this`moveFrames
      ensures Valid()
      ensures moveFrames as int == old(moveFrames) as int + 9
    {
      moveFrames := moveFrames + FramesPerMove / 2;
    }

    /** The first half of the lock step: writes the cells of `mp` in order,
        putting each cell's row into the ordered set before its write, and
        stops at the first write that falls off the board. */
    method WriteCells(mp: MovingPiece) returns (outOfBounds: bool, lineSet: seq<int>)
      requires grid.Valid() && WellFormed(mp.piece) && InPlay(mp.pos)
      modifies grid.rows
      ensures grid.Valid()
      ensures (grid.Cells(), !outOfBounds) == WriteAll(old(grid.Cells()), Cells(mp), mp.piece.colour)
      ensures !outOfBounds ==> lineSet == RowSet(Cells(mp))
    {
      ghost var b0 := grid.Cells();
      var pts := Cells(mp);
      var colour := mp.piece.colour;
      CandidatesFitI8(mp);
      lineSet := [];
      outOfBounds := false;
      var i := 0;
      while i < 4
        invariant 0 <= i <= 4
        invariant grid.Valid()
        invariant !outOfBounds
        invariant WriteAll(b0, pts[..i], colour) == (grid.Cells(), true)
        invariant lineSet == RowSet(pts[..i])
      {
        assert pts[..i + 1][..i] == pts[..i];
        lineSet := Insert(lineSet, pts[i].y);
        var ok := grid.Set(pts[i], colour);
        if !ok {
          outOfBounds := true;
          WriteAllStops(b0, pts, colour, i + 1);
          break;
        }
        i := i + 1;
      }
      if !outOfBounds {
        assert pts[..4] == pts;
      }
    }

    /** The second half of the lock step: `check_for_line` on each row of the
        set, in ascending order, counting the rows cleared. */
    method ClearRows(lineSet: seq<int>) returns (cleared: nat)
      requires grid.Valid()
      requires forall j :: 0 <= j < |lineSet| ==> 0 <= lineSet[j] < Height
      modifies grid.rows
      ensures grid.Valid()
      ensures (grid.Cells(), cleared) == ClearAll(old(grid.Cells()), lineSet, |lineSet|)
    {
      ghost var b1 := grid.Cells();
      cleared := 0;
      var k := 0;
      while k < |lineSet|
        invariant 0 <= k <= |lineSet|
        invariant grid.Valid()
        invariant (grid.Cells(), cleared) == ClearAll(b1, lineSet, k)
      {
        var done := grid.CheckForLine(lineSet[k]);
        if done {
          cleared := cleared + 1;
        }
        k := k + 1;
      }
    }

    /** The lock step of a tick: the first write off the board ends the game
        and leaves the piece in place; otherwise the piece is dropped and the
        rows cleared are scored. */
    method LockPiece(mp: MovingPiece)
      requires Valid() && curPiece == Some(mp) && !gameover
      modifies this`gameover, this`curPiece, this`score, grid.rows
      ensures Valid()
      ensures match Settle(old(grid.Cells()), mp)
        case ToppedOut(b) =>
          gameover && curPiece == old(curPiece) && score == old(score) && grid.Cells() == b
        case Settled(b, n) =>
          !gameover && curPiece == None && score == old(score) + LineScore(n) && grid.Cells() == b
    {
      ghost var b0 := grid.Cells();
      var outOfBounds, lineSet := WriteCells(mp);
      ghost var b1 := grid.Cells();
      if outOfBounds {
        gameover := true;
        SettleOfFailedWrite(b0, mp, b1);
      } else {
        curPiece := None;
        RowSetOnBoard(Cells(mp));
        var cleared := ClearRows(lineSet);
        SettleOfClearedRows(b0, mp, b1, grid.Cells(), cleared);
        score := score + LineScore(cleared);
      }
    }

    /** One pass of the update loop: the timer advances (also after game
        over); then, unless the game is over, a missing piece is replaced by
        the next one (the new next piece is shape `draw`), or, when the timer
        asks for it, the piece descends one row if all its cells below are
        free and is locked otherwise. */
    method Tick(draw: int)
      requires Valid() && 0 <= draw < 7 && moveFrames < 255
      modifies this, grid.rows
      ensures Valid()
      ensures moveFrames == Advance(old(moveFrames)).0
      ensures old(gameover) ==>
        gameover && curPiece == old(curPiece) && nextPiece == old(nextPiece) &&
        score == old(score) && grid.Cells() == old(grid.Cells())
      ensures !old(gameover) && old(curPiece).None? ==>
        !gameover && curPiece == Some(Spawn(old(nextPiece))) && nextPiece == Shape(draw) &&
        score == old(score) && grid.Cells() == old(grid.Cells())
      ensures !old(gameover) && old(curPiece).Some? && !Advance(old(moveFrames)).1 ==>
        !gameover && curPiece == old(curPiece) && nextPiece == old(nextPiece) &&
        score == old(score) && grid.Cells() == old(grid.Cells())
      ensures !old(gameover) && old(curPiece).Some? && Advance(old(moveFrames)).1 ==>
        var mp := old(curPiece).value;
        nextPiece == old(nextPiece) && CellsFitI8(Descended(mp)) &&
        if Unobstructed(old(grid.Cells()), Descended(mp)) then
          !gameover && curPiece == Some(Descended(mp)) &&
          score == old(score) && grid.Cells() == old(grid.Cells())
        else
          match Settle(old(grid.Cells()), mp)
          case ToppedOut(b) =>
            gameover && curPiece == old(curPiece) && score == old(score) && grid.Cells() == b
          case Settled(b, n) =>
            !gameover && curPiece == None && score == old(score) + LineScore(n) && grid.Cells() == b
      ensures score >= old(score)
      ensures old(gameover) ==> gameover
    {
      moveFrames := moveFrames + 1;
      var moveFrame := false;
      if moveFrames > FramesPerMove {
        moveFrames := moveFrames - FramesPerMove;
        moveFrame := true;
      }
      if !gameover {
        if curPiece.Some? {
          if moveFrame {
            var mp := curPiece.value;
            CandidatesFitI8(mp);
            var newPos := Pos(mp.pos.x, mp.pos.y + 1);
            var pts := Points(mp.piece, newPos);
            assert pts == Cells(Descended(mp));
            var canMoveDown := true;
            var i := 0;
            while i < 4
              invariant 0 <= i <= 4
              invariant canMoveDown
              invariant forall j :: 0 <= j < i ==> FreeOrAbove(grid.Cells(), pts[j])
            {
              if !FreeOrAbove(grid.Cells(), pts[i]) {
                canMoveDown := false;
                break;
              }
              i := i + 1;
            }
            if canMoveDown {
              UnobstructedInPlay(grid.Cells(), Descended(mp));
              curPiece := Some(MovingPiece(newPos, mp.piece));
            } else {
              LockPiece(mp);
            }
          }
        } else {
          var piece := nextPiece;
          nextPiece := Shape(draw);
          curPiece := Some(Spawn(piece));
        }
      }
    }

    /** `key_down_event`: no key code, or a game that is over, changes
        nothing; otherwise the key's command is run. */
    method KeyDown(keycode: Option<KeyCode>)
      requires Valid()
      requires !gameover && keycode.Some? && CommandFor(keycode.value) == Some(SoftDrop) ==>
        moveFrames as int + 9 <= 255
      modifies this`curPiece, this`moveFrames
      ensures Valid()
      ensures var cmd: Option<Command> := if old(gameover) || keycode.None? then None else CommandFor(keycode.value);
        match cmd
        case None => curPiece == old(curPiece) && moveFrames == old(moveFrames)
        case Some(SoftDrop) => curPiece == old(curPiece) && moveFrames as int == old(moveFrames) as int + 9
        case Some(Shift(m)) =>
          moveFrames == old(moveFrames) && curPiece == AfterMove(grid.Cells(), old(curPiece), m)
    {
      if keycode.None? {
        return;
      }
      if gameover {
        return;
      }
      match keycode.value {
        case KeyA | KeyLeft => Mv(Left);
        case KeyD | KeyRight => Mv(Right);
        case KeyQ => Mv(RotLeft);
        case KeyE => Mv(RotRight);
        case KeyS | KeyDown => MoveDown();
        case OtherKey =>
      }
    }
  }
}
