/** What happens to the board when the falling piece can descend no further:
    its cells are written one by one (stopping at the first cell off the
    board, which ends the game), then every row the piece touched is checked,
    in ascending order, and full rows are cleared and scored. */
module Locking {
  import opened Basics
  import opened Pieces
  import opened Grids
  import opened SortedSets

  // ------------------------------------------------------------ writing cells

  /** Writes `c` at each point in order with `SetCell`, stopping at the first
      point off the board; reports whether every write happened. */
  function WriteAll(b: Board, pts: seq<Pos>, c: u8): (r: (Board, bool))
    requires WellShaped(b)
    ensures WellShaped(r.0)
    ensures r.1 <==> forall i :: 0 <= i < |pts| ==> InBounds(pts[i])
    decreases |pts|
  {
    if pts == [] then (b, true)
    else
      var front := pts[..|pts| - 1];
      assert forall i :: 0 <= i < |front| ==> front[i] == pts[i];
      var (b1, ok) := WriteAll(b, front, c);
      if !ok then (b1, false) else SetCell(b1, pts[|pts| - 1], c)
  }

  /** Once a write has failed, later points are not written. */
  lemma {:induction false} WriteAllStops(b: Board, pts: seq<Pos>, c: u8, k: nat)
    requires WellShaped(b) && 0 < k <= |pts|
    requires !WriteAll(b, pts[..k], c).1
    ensures WriteAll(b, pts, c) == WriteAll(b, pts[..k], c)
    decreases |pts|
  {
    if k < |pts| {
      var front := pts[..|pts| - 1];
      assert front[..k] == pts[..k];
      WriteAllStops(b, front, c, k);
    } else {
      assert pts[..k] == pts;
    }
  }

  /** When every point is on the board, each of them holds `c` afterwards and
      every other cell is unchanged. */
  lemma {:induction false} WriteAllWrites(b: Board, pts: seq<Pos>, c: u8)
    requires WellShaped(b)
    requires forall i :: 0 <= i < |pts| ==> InBounds(pts[i])
    ensures forall i :: 0 <= i < |pts| ==> WriteAll(b, pts, c).0[pts[i].y][pts[i].x] == c
    ensures forall y, x :: 0 <= y < Height && 0 <= x < Width && Pos(x, y) !in pts ==>
      WriteAll(b, pts, c).0[y][x] == b[y][x]
    decreases |pts|
  {
    if pts != [] {
      var front := pts[..|pts| - 1];
      var last := pts[|pts| - 1];
      WriteAllWrites(b, front, c);
      var b1 := WriteAll(b, front, c).0;
      var r := WriteAll(b, pts, c).0;
      assert r == SetCell(b1, last, c).0;
      forall i | 0 <= i < |pts|
        ensures r[pts[i].y][pts[i].x] == c
      {
        if i < |pts| - 1 {
          assert pts[i] == front[i];
        }
      }
      forall y, x | 0 <= y < Height && 0 <= x < Width && Pos(x, y) !in pts
        ensures r[y][x] == b[y][x]
      {
        assert Pos(x, y) !in front;
      }
    }
  }

  /** When point `j` is the first one off the board, the board keeps exactly
      the writes of the points before it and the lock fails. */
  lemma WriteAllFailsAt(b: Board, pts: seq<Pos>, c: u8, j: nat)
    requires WellShaped(b) && j < |pts|
    requires forall i :: 0 <= i < j ==> InBounds(pts[i])
    requires !InBounds(pts[j])
    ensures !WriteAll(b, pts, c).1
    ensures WriteAll(b, pts, c).0 == WriteAll(b, pts[..j], c).0
    ensures forall i :: 0 <= i < j ==> WriteAll(b, pts, c).0[pts[i].y][pts[i].x] == c
  {
    var front := pts[..j + 1];
    assert front[..j] == pts[..j];
    WriteAllStops(b, pts, c, j + 1);
    WriteAllWrites(b, pts[..j], c);
    forall i | 0 <= i < j
      ensures WriteAll(b, pts, c).0[pts[i].y][pts[i].x] == c
    {
      assert pts[i] == pts[..j][i];
    }
  }

  // ------------------------------------------------------------ touched rows

  /** The `BTreeSet` of the rows of the points, inserted in point order. */
  function RowSet(pts: seq<Pos>): (r: seq<int>)
    ensures Increasing(r)
    ensures |r| <= |pts|
    decreases |pts|
  {
    if pts == [] then []
    else Insert(RowSet(pts[..|pts| - 1]), pts[|pts| - 1].y)
  }

  /** Some point lies in row `y`. */
  predicate HasRow(pts: seq<Pos>, y: int) {
    exists i :: 0 <= i < |pts| && pts[i].y == y
  }

  lemma HasRowSplit(pts: seq<Pos>, y: int)
    requires pts != []
    ensures HasRow(pts, y) <==> HasRow(pts[..|pts| - 1], y) || pts[|pts| - 1].y == y
  {
    var front := pts[..|pts| - 1];
    if HasRow(front, y) {
      var i :| 0 <= i < |front| && front[i].y == y;
      assert pts[i].y == y;
    }
    if HasRow(pts, y) && pts[|pts| - 1].y != y {
      var i :| 0 <= i < |pts| && pts[i].y == y;
      assert front[i].y == y;
    }
  }

  /** The set holds exactly the rows of the points. */
  lemma {:induction false} RowSetHoldsRows(pts: seq<Pos>)
    ensures forall y :: y in RowSet(pts) <==> HasRow(pts, y)
    decreases |pts|
  {
    if pts != [] {
      var front := pts[..|pts| - 1];
      RowSetHoldsRows(front);
      forall y ensures y in RowSet(pts) <==> HasRow(pts, y) {
        HasRowSplit(pts, y);
      }
    }
  }

  /** `check_for_line` on the first `n` rows of `ys`, in order: the board
      after them and how many were cleared. */
  function ClearAll(b: Board, ys: seq<int>, n: nat): (r: (Board, nat))
    requires WellShaped(b) && n <= |ys|
    requires forall i :: 0 <= i < |ys| ==> 0 <= ys[i] < Height
    ensures WellShaped(r.0)
    ensures r.1 <= n
  {
    if n == 0 then (b, 0)
    else
      var before := ClearAll(b, ys, n - 1);
      var last := CheckLine(before.0, ys[n - 1]);
      (last.0, if last.1 then before.1 + 1 else before.1)
  }

  function Empties(n: nat): (r: seq<Row>)
    ensures |r| == n
  {
    seq(n, _ => EmptyRow())
  }

  /** The rows of `b[..hi]` that are not cleared: those not in `ys`, or not full. */
  function Survivors(b: Board, ys: seq<int>, hi: nat): (r: seq<Row>)
    requires hi <= |b|
    ensures |r| <= hi
  {
    if hi == 0 then []
    else Survivors(b, ys, hi - 1) + (if hi - 1 in ys && RowFull(b[hi - 1]) then [] else [b[hi - 1]])
  }

  /** Rows that `ys` does not name all survive. */
  lemma {:induction false} SurvivorsKeep(b: Board, ys: seq<int>, lo: nat, hi: nat)
    requires lo <= hi <= |b|
    requires forall k :: lo <= k < hi ==> k !in ys
    ensures Survivors(b, ys, hi) == Survivors(b, ys, lo) + b[lo..hi]
    decreases hi
  {
    if lo < hi {
      SurvivorsKeep(b, ys, lo, hi - 1);
      assert b[lo..hi] == b[lo..hi - 1] + [b[hi - 1]];
    }
  }

  /** Survivors depend only on which of the rows below `hi` are named. */
  lemma {:induction false} SurvivorsAgree(b: Board, ys1: seq<int>, ys2: seq<int>, hi: nat)
    requires hi <= |b|
    requires forall k :: 0 <= k < hi ==> (k in ys1 <==> k in ys2)
    ensures Survivors(b, ys1, hi) == Survivors(b, ys2, hi)
    decreases hi
  {
    if hi > 0 {
      SurvivorsAgree(b, ys1, ys2, hi - 1);
    }
  }

  /** When every named row lies below `y`, the board after clearing them
      still has the rows of `b` from `y` on, under `y` rows made of empty
      rows and survivors. */
  lemma ClearedPrefixSplits(b: Board, front: seq<int>, y: int, b1: Board, n1: nat)
    requires WellShaped(b) && 0 <= y < Height && |b1| == Height
    requires forall k :: k in front ==> k < y
    requires b1 == Empties(n1) + Survivors(b, front, Height)
    ensures b1[..y] == Empties(n1) + Survivors(b, front, y)
    ensures b1[y] == b[y] && b1[y + 1..] == b[y + 1..]
  {
    SurvivorsKeep(b, front, y, Height);
    var s := Survivors(b, front, y);
    assert b1 == (Empties(n1) + s) + b[y..Height];
    assert |Empties(n1) + s| == y;
  }

  /** Row `ys[n - 1]` is above every row before it in `ys`. */
  predicate LastAbove(ys: seq<int>, n: nat) {
    0 < n <= |ys| && forall i :: 0 <= i < n - 1 ==> ys[i] < ys[n - 1]
  }

  /** The survivors of the first `n` rows of `ys`, split at the last of
      them, `y`: those of the other rows below `y`, then row `y` unless it is
      full, then every row under `y`. */
  lemma SurvivorsOfLast(b: Board, ys: seq<int>, n: nat)
    requires WellShaped(b) && LastAbove(ys, n)
    requires 0 <= ys[n - 1] < Height
    ensures var y := ys[n - 1];
      Survivors(b, ys[..n], Height) ==
        Survivors(b, ys[..n - 1], y) + (if RowFull(b[y]) then [] else [b[y]]) + b[y + 1..]
  {
    var front := ys[..n - 1];
    var named := ys[..n];
    var y := ys[n - 1];
    forall k | 0 <= k < y ensures k in front <==> k in named {
      if k in named {
        var i :| 0 <= i < n && named[i] == k;
        assert i != n - 1;
        assert front[i] == k;
      }
      if k in front {
        var i :| 0 <= i < n - 1 && front[i] == k;
        assert named[i] == k;
      }
    }
    SurvivorsAgree(b, front, named, y);
    assert named[n - 1] == y;
    forall k | y + 1 <= k < Height ensures k !in named {
      assert forall i :: 0 <= i < n ==> named[i] <= y;
    }
    SurvivorsKeep(b, named, y + 1, Height);
    assert b[y + 1..Height] == b[y + 1..];
  }

  /** Checking the rows of a strictly ascending `ys` in order removes exactly
      the full rows among them and puts as many empty rows on top: the board
      slides down over every cleared row, the others keep their order. */
  lemma {:induction false} ClearAllRemovesFullRows(b: Board, ys: seq<int>, n: nat)
    requires WellShaped(b) && Increasing(ys) && n <= |ys|
    requires forall i :: 0 <= i < |ys| ==> 0 <= ys[i] < Height
    ensures ClearAll(b, ys, n).0 == Empties(ClearAll(b, ys, n).1) + Survivors(b, ys[..n], Height)
  {
    if n == 0 {
      SurvivorsKeep(b, ys[..0], 0, Height);
      assert b[0..Height] == b;
    } else {
      ClearAllRemovesFullRows(b, ys, n - 1);
      assert LastAbove(ys, n);
      ClearAllExtends(b, ys, n);
    }
  }

  /** The step of `ClearAllRemovesFullRows`: the property for the first
      `n - 1` rows gives it for the first `n`. */
  lemma ClearAllExtends(b: Board, ys: seq<int>, n: nat)
    requires WellShaped(b) && LastAbove(ys, n)
    requires forall i :: 0 <= i < |ys| ==> 0 <= ys[i] < Height
    requires ClearAll(b, ys, n - 1).0 ==
      Empties(ClearAll(b, ys, n - 1).1) + Survivors(b, ys[..n - 1], Height)
    ensures ClearAll(b, ys, n).0 == Empties(ClearAll(b, ys, n).1) + Survivors(b, ys[..n], Height)
  {
    var front := ys[..n - 1];
    var y := ys[n - 1];
    var b1 := ClearAll(b, ys, n - 1).0;
    var n1 := ClearAll(b, ys, n - 1).1;
    forall k | k in front ensures k < y {
      var i :| 0 <= i < n - 1 && front[i] == k;
      assert ys[i] < y;
    }
    ClearedPrefixSplits(b, front, y, b1, n1);
    ClearStep(b, b1, n1, y, Survivors(b, front, y));
    SurvivorsOfLast(b, ys, n);
  }

  /** One step of `ClearAllRemovesFullRows`: checking row `y` of a board
      whose top `y` rows are empties and survivors and whose rows from `y`
      on are those of `b`. */
  lemma ClearStep(b: Board, b1: Board, n1: nat, y: int, s: seq<Row>)
    requires WellShaped(b) && WellShaped(b1) && 0 <= y < Height
    requires b1[..y] == Empties(n1) + s
    requires b1[y] == b[y] && b1[y + 1..] == b[y + 1..]
    ensures CheckLine(b1, y).0 == Empties(if CheckLine(b1, y).1 then n1 + 1 else n1) +
                  (s + (if RowFull(b[y]) then [] else [b[y]]) + b[y + 1..])
  {
    if RowFull(b[y]) {
      calc {
        CheckLine(b1, y).0;
        Collapsed(b1, y);
        [EmptyRow()] + (Empties(n1) + s) + b[y + 1..];
        { assert [EmptyRow()] + Empties(n1) == Empties(n1 + 1); }
        Empties(n1 + 1) + (s + [] + b[y + 1..]);
      }
    } else {
      assert b1 == b1[..y] + [b1[y]] + b1[y + 1..];
    }
  }

  // ----------------------------------------------------------------- scoring

  /** Points for clearing `n` rows with one piece. */
  function LineScore(n: nat): (s: nat)
    requires n <= 4
    ensures s == 0 <==> n == 0
  {
    match n
    case 0 => 0
    case 1 => 40
    case 2 => 100
    case 3 => 300
    case _ => 1200
  }

  /** More rows at once always score more. */
  lemma LineScoreIncreases(n: nat, m: nat)
    requires n < m <= 4
    ensures LineScore(n) < LineScore(m)
  {
  }

  // ---------------------------------------------------------------- locking

  /** The result of locking a piece: either a cell fell off the board (the
      board keeps the writes made before it), or the piece settled and
      `cleared` rows were removed. */
  datatype LockOutcome = ToppedOut(board: Board) | Settled(board: Board, cleared: nat)

  /** The rows of cells that are all on the board are rows of the board. */
  lemma RowSetOnBoard(pts: seq<Pos>)
    requires forall i :: 0 <= i < |pts| ==> InBounds(pts[i])
    ensures forall i :: 0 <= i < |RowSet(pts)| ==> 0 <= RowSet(pts)[i] < Height
  {
    var ys := RowSet(pts);
    RowSetHoldsRows(pts);
    forall i | 0 <= i < |ys| ensures 0 <= ys[i] < Height {
      assert ys[i] in ys;
    }
  }

  /** Locking the moving piece `mp` into `b`. */
  function Settle(b: Board, mp: MovingPiece): (r: LockOutcome)
    requires WellShaped(b)
    ensures WellShaped(r.board)
    ensures r.Settled? <==> forall i :: 0 <= i < 4 ==> InBounds(Cells(mp)[i])
    ensures r.Settled? ==> r.cleared <= 4
  {
    var pts := Cells(mp);
    var written := WriteAll(b, pts, mp.piece.colour);
    if !written.1 then ToppedOut(written.0)
    else
      RowSetOnBoard(pts);
      var ys := RowSet(pts);
      var cleared := ClearAll(written.0, ys, |ys|);
      Settled(cleared.0, cleared.1)
  }

  /** `Settle` read off a write that failed. */
  lemma SettleOfFailedWrite(b: Board, mp: MovingPiece, b1: Board)
    requires WellShaped(b) && WriteAll(b, Cells(mp), mp.piece.colour) == (b1, false)
    ensures Settle(b, mp) == ToppedOut(b1)
  {
  }

  /** `Settle` read off a write that succeeded and the rows it cleared. */
  lemma SettleOfClearedRows(b: Board, mp: MovingPiece, b1: Board, b2: Board, n: nat)
    requires WellShaped(b) && WriteAll(b, Cells(mp), mp.piece.colour) == (b1, true)
    requires forall j :: 0 <= j < |RowSet(Cells(mp))| ==> 0 <= RowSet(Cells(mp))[j] < Height
    requires ClearAll(b1, RowSet(Cells(mp)), |RowSet(Cells(mp))|) == (b2, n)
    ensures Settle(b, mp) == Settled(b2, n)
  {
  }

  /** After a settled lock the board is the written board with its full
      touched rows removed and empty rows on top. */
  lemma SettleRemovesFullRows(b: Board, mp: MovingPiece)
    requires WellShaped(b) && Settle(b, mp).Settled?
    ensures var w := WriteAll(b, Cells(mp), mp.piece.colour).0;
            Settle(b, mp).board == Empties(Settle(b, mp).cleared) + Survivors(w, RowSet(Cells(mp)), Height)
  {
    var pts := Cells(mp);
    var ys := RowSet(pts);
    var w := WriteAll(b, pts, mp.piece.colour).0;
    SettledClearsTouchedRows(b, mp);
    ClearEveryRow(w, ys);
  }

  /** `ClearAllRemovesFullRows` for all of `ys`. */
  lemma ClearEveryRow(b: Board, ys: seq<int>)
    requires WellShaped(b) && Increasing(ys)
    requires forall i :: 0 <= i < |ys| ==> 0 <= ys[i] < Height
    ensures ClearAll(b, ys, |ys|).0 == Empties(ClearAll(b, ys, |ys|).1) + Survivors(b, ys, Height)
  {
    ClearAllRemovesFullRows(b, ys, |ys|);
    assert ys[..|ys|] == ys;
  }

  /** A settled lock is `ClearAll` over every touched row of the written board. */
  lemma SettledClearsTouchedRows(b: Board, mp: MovingPiece)
    requires WellShaped(b) && Settle(b, mp).Settled?
    ensures forall i :: 0 <= i < |RowSet(Cells(mp))| ==> 0 <= RowSet(Cells(mp))[i] < Height
    ensures var w := WriteAll(b, Cells(mp), mp.piece.colour).0;
            var ys := RowSet(Cells(mp));
            Settle(b, mp) == Settled(ClearAll(w, ys, |ys|).0, ClearAll(w, ys, |ys|).1)
  {
    RowSetOnBoard(Cells(mp));
  }

  /** Checking rows none of which is full changes nothing. */
  lemma {:induction false} ClearAllNoFullRows(b: Board, ys: seq<int>, n: nat)
    requires WellShaped(b) && n <= |ys|
    requires forall i :: 0 <= i < |ys| ==> 0 <= ys[i] < Height && !RowFull(b[ys[i]])
    ensures ClearAll(b, ys, n) == (b, 0)
  {
    if n > 0 {
      ClearAllNoFullRows(b, ys, n - 1);
    }
  }

  /** Four cells leave a gap among the first five columns of any row. */
  lemma FourCellsLeaveAGap(pts: seq<Pos>, y: int) returns (x: int)
    requires |pts| == 4
    ensures 0 <= x < 5 && Pos(x, y) !in pts
  {
    x := if Pos(0, y) !in pts then 0 else if Pos(1, y) !in pts then 1
         else if Pos(2, y) !in pts then 2 else if Pos(3, y) !in pts then 3 else 4;
  }

  /** Writing on an empty board: exactly the written cells hold `c`. */
  lemma WrittenOnEmpty(pts: seq<Pos>, c: u8)
    requires forall i :: 0 <= i < |pts| ==> InBounds(pts[i])
    ensures forall y, x :: 0 <= y < Height && 0 <= x < Width ==>
      WriteAll(EmptyBoard(), pts, c).0[y][x] == if Pos(x, y) in pts then c else EmptyCell
  {
    var w := WriteAll(EmptyBoard(), pts, c).0;
    WriteAllWrites(EmptyBoard(), pts, c);
    forall y, x | 0 <= y < Height && 0 <= x < Width
      ensures w[y][x] == if Pos(x, y) in pts then c else EmptyCell
    {
      if Pos(x, y) in pts {
        var i :| 0 <= i < |pts| && pts[i] == Pos(x, y);
      }
    }
  }

  /** Locking a piece that lies on an empty board clears no row (four cells
      cannot fill a row of ten), and afterwards exactly the piece's cells hold
      its colour while every other cell is still empty. */
  lemma LockOnEmptyBoard(mp: MovingPiece)
    requires forall i :: 0 <= i < 4 ==> InBounds(Cells(mp)[i])
    ensures Settle(EmptyBoard(), mp).Settled? && Settle(EmptyBoard(), mp).cleared == 0
    ensures forall y, x :: 0 <= y < Height && 0 <= x < Width ==>
      Settle(EmptyBoard(), mp).board[y][x] == if Pos(x, y) in Cells(mp) then mp.piece.colour else EmptyCell
  {
    var pts := Cells(mp);
    var c := mp.piece.colour;
    WrittenOnEmpty(pts, c);
    var w := WriteAll(EmptyBoard(), pts, c).0;
    var ys := RowSet(pts);
    RowSetHoldsRows(pts);
    forall i | 0 <= i < |ys| ensures 0 <= ys[i] < Height && !RowFull(w[ys[i]]) {
      assert ys[i] in ys;
      var x := FourCellsLeaveAGap(pts, ys[i]);
      assert !IsLocked(w[ys[i]][x]);
    }
    ClearAllNoFullRows(w, ys, |ys|);
  }

  /** A piece just spawned, locked before it moved, lies wholly above the
      board: the lock fails at its first cell and the board is untouched. */
  lemma SpawnedPieceTopsOut(b: Board, k: int)
    requires WellShaped(b) && 0 <= k < 7
    ensures Settle(b, Spawn(Shape(k))) == ToppedOut(b)
  {
    var mp := Spawn(Shape(k));
    var pts := Cells(mp);
    ShapesSitAtOrAbovePivot(k);
    assert !InBounds(pts[0]);
    WriteAllFailsAt(b, pts, mp.piece.colour, 0);
    assert pts[..0] == [];
  }
}
