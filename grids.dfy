/** The board: 20 rows of 10 `u8` cells. A cell below `NumColours` is locked
    in that colour; 255 marks an empty cell. The functions give the board's
    rules on values; class `Grid` is the mutable array the game owns. */
module Grids {
  import opened Basics

  type Row = seq<u8>
  type Board = seq<Row>

  predicate WellShaped(b: Board) {
    |b| == Height && forall y :: 0 <= y < |b| ==> |b[y]| == Width
  }

  function EmptyRow(): (r: Row)
    ensures |r| == Width
  {
    seq(Width, _ => EmptyCell)
  }

  /** `Grid::new`: every cell empty. */
  function EmptyBoard(): (b: Board)
    ensures WellShaped(b)
  {
    seq(Height, _ => EmptyRow())
  }

  predicate IsLocked(c: u8) {
    (c as int) < NumColours
  }

  predicate InBounds(p: Pos) {
    0 <= p.x < Width && 0 <= p.y < Height
  }

  /** `Grid::is_free_or_above`: look the cell up through the two `usize`
      casts; a cell that exists is free when it is not locked, and a missing
      cell counts as free only above the board, within its columns. */
  function FreeOrAbove(b: Board, p: Pos): (r: bool)
    requires FitsI8(p)
    ensures WellShaped(b) ==>
      (r <==> (InBounds(p) && !IsLocked(b[p.y][p.x])) || (p.y < 0 && 0 <= p.x < Width))
  {
    var cell := match Get(b, AsUsize(p.y))
      case Some(row) => Get(row, AsUsize(p.x))
      case None => None;
    match cell
    case Some(c) => (c as int) >= NumColours
    case None => p.y < 0 && 0 <= p.x && p.x < Width
  }

  /** `Grid::set` on values: the new board and whether the write happened. */
  function SetCell(b: Board, p: Pos, c: u8): (r: (Board, bool))
    requires WellShaped(b)
    ensures WellShaped(r.0)
    ensures r.1 <==> InBounds(p)
    ensures r.1 ==> r.0[p.y][p.x] == c
    ensures forall y, x :: 0 <= y < Height && 0 <= x < Width && (y != p.y || x != p.x) ==>
      r.0[y][x] == b[y][x]
  {
    if InBounds(p) then (b[p.y := b[p.y][p.x := c]], true) else (b, false)
  }

  predicate RowFull(r: Row) {
    forall x :: 0 <= x < |r| ==> IsLocked(r[x])
  }

  /** Row `y` taken out and an empty row put on top. */
  function Collapsed(b: Board, y: int): (r: Board)
    requires WellShaped(b) && 0 <= y < Height
    ensures WellShaped(r)
  {
    [EmptyRow()] + b[..y] + b[y + 1..]
  }

  /** The collapse row by row: rows `1..=y` take the row that was above them,
      row 0 is emptied and the rows below `y` stay. */
  lemma CollapsedRows(b: Board, y: int)
    requires WellShaped(b) && 0 <= y < Height
    ensures forall r :: 0 <= r < Height ==>
      Collapsed(b, y)[r] == if r == 0 then EmptyRow() else if r <= y then b[r - 1] else b[r]
  {
    var c := Collapsed(b, y);
    forall r | 0 <= r < Height
      ensures c[r] == if r == 0 then EmptyRow() else if r <= y then b[r - 1] else b[r]
    {
      if 0 < r <= y {
        assert c[r] == b[..y][r - 1];
      } else if y < r {
        assert c[r] == b[y + 1..][r - 1 - y];
      }
    }
  }

  /** A board that agrees with `Collapsed(b, y)` row by row is that board. */
  lemma CollapsedFromRows(b: Board, after: Board, y: int)
    requires WellShaped(b) && 0 <= y < Height && |after| == Height
    requires after[0] == EmptyRow()
    requires forall k :: 0 < k <= y ==> after[k] == b[k - 1]
    requires forall k :: y < k < Height ==> after[k] == b[k]
    ensures after == Collapsed(b, y)
  {
    CollapsedRows(b, y);
  }

  /** `Grid::check_for_line` on values: whether row `y` is full and the board
      after it is cleared. */
  function CheckLine(b: Board, y: int): (r: (Board, bool))
    requires WellShaped(b) && 0 <= y < Height
    ensures WellShaped(r.0)
    ensures r.1 <==> forall x :: 0 <= x < Width ==> IsLocked(b[y][x])
    ensures r.1 ==> r.0 == Collapsed(b, y)
    ensures !r.1 ==> r.0 == b
  {
    if RowFull(b[y]) then (Collapsed(b, y), true) else (b, false)
  }

  /** The board of the game, an array of rows as the source's
      `[[u8; 10]; 20]`. */
  class Grid {
    const rows: array<Row>

    ghost predicate Valid()
      reads this, rows
    {
      WellShaped(rows[..])
    }

    function Cells(): (b: Board)
      reads this, rows
    {
      rows[..]
    }

    /** `Grid::new`. */
    constructor ()
      ensures Valid() && fresh(rows)
      ensures Cells() == EmptyBoard()
    {
      rows := new Row[Height](_ => EmptyRow());
    }

    /** `Grid::set`: writes `c` through two bounds-checked lookups and reports
        whether the cell existed. */
    method Set(p: Pos, c: u8) returns (ok: bool)
      requires Valid() && FitsI8(p)
      modifies rows
      ensures Valid()
      ensures (Cells(), ok) == SetCell(old(Cells()), p, c)
    {
      var y := AsUsize(p.y);
      if y < rows.Length {
        var x := AsUsize(p.x);
        if x < |rows[y]| {
          rows[y] := rows[y][x := c];
          ok := true;
          return;
        }
      }
      ok := false;
    }

    /** `Grid::check_for_line`: when row `y` is full, copies each row from
        `y` down to 1 from the row above it, bottom first, then empties row 0. */
    method CheckForLine(y: int) returns (done: bool)
      requires Valid() && 0 <= y < Height
      modifies rows
      ensures Valid()
      ensures (Cells(), done) == CheckLine(old(Cells()), y)
    {
      ghost var before := rows[..];
      done := forall x | 0 <= x < |rows[y]| :: IsLocked(rows[y][x]);
      if done {
        var r := y;
        while r > 0
          invariant 0 <= r <= y
          invariant forall k :: 0 <= k <= r ==> rows[k] == before[k]
          invariant forall k :: r < k <= y ==> rows[k] == before[k - 1]
          invariant forall k :: y < k < Height ==> rows[k] == before[k]
        {
          rows[r] := rows[r - 1];
          r := r - 1;
        }
        rows[0] := EmptyRow();
        CollapsedFromRows(before, rows[..], y);
      }
    }
  }
}
