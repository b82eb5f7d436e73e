/** Tetrominoes: the seven shapes, their 90-degree rotations about the pivot,
    the absolute cells a piece covers, and a piece bound to a board position. */
module Pieces {
  import opened Basics

  /** The four offsets of a piece relative to its pivot (`[Pos; 4]`). */
  type Offsets = s: seq<Pos> | |s| == 4 witness [Pos(0, 0), Pos(0, 0), Pos(0, 0), Pos(0, 0)]

  /** A shape and its colour; a value, copied freely as the source's `Copy` struct is. */
  datatype Piece = Piece(colour: u8, offsets: Offsets)

  predicate Distinct(s: seq<Pos>) {
    forall i, j :: 0 <= i < j < |s| ==> s[i] != s[j]
  }

  /** An offset within two cells of the pivot, the reach of every shape. */
  predicate Small(o: Pos) {
    -2 <= o.x <= 2 && -2 <= o.y <= 2
  }

  /** What every piece the game creates satisfies: a palette colour and four
      distinct offsets near the pivot. */
  predicate WellFormed(p: Piece) {
    (p.colour as int) < NumColours &&
    Distinct(p.offsets) &&
    forall i :: 0 <= i < 4 ==> Small(p.offsets[i])
  }

  /** `Piece::get_random` with the random draw `k` from `0..7` supplied by the
      caller: shape `k` of the fixed table, coloured `k`. */
  function Shape(k: int): (p: Piece)
    requires 0 <= k < 7
    ensures p.colour as int == k
    ensures WellFormed(p)
  {
    var offsets: Offsets := match k
      case 0 => [Pos(-1, -1), Pos(0, -1), Pos(1, -1), Pos(-1, 0)]
      case 1 => [Pos(-1, 0), Pos(0, 0), Pos(1, 0), Pos(2, 0)]
      case 2 => [Pos(-1, -1), Pos(0, -1), Pos(1, -1), Pos(0, 0)]
      case 3 => [Pos(0, -1), Pos(1, -1), Pos(-1, 0), Pos(0, 0)]
      case 4 => [Pos(-1, -1), Pos(0, -1), Pos(0, 0), Pos(1, 0)]
      case 5 => [Pos(-1, -1), Pos(0, -1), Pos(-1, 0), Pos(0, 0)]
      case _ => [Pos(-1, -1), Pos(0, -1), Pos(1, -1), Pos(1, 0)];
    Piece(k as u8, offsets)
  }

  /** Every shape lies in the two rows at and above its pivot. */
  lemma ShapesSitAtOrAbovePivot(k: int)
    requires 0 <= k < 7
    ensures forall i :: 0 <= i < 4 ==> -1 <= Shape(k).offsets[i].y <= 0
  {
  }

  // ---------------------------------------------------------------- rotation

  function TurnLeft(o: Pos): (t: Pos) {
    Pos(o.y, -o.x)
  }

  function TurnRight(o: Pos): (t: Pos) {
    Pos(-o.y, o.x)
  }

  /** The piece after a quarter turn to the left: every offset `(x, y)`
      becomes `(y, -x)`, in place, and the colour stays. */
  function RotatedLeft(p: Piece): (r: Piece) {
    Piece(p.colour, seq(4, i requires 0 <= i < 4 => TurnLeft(p.offsets[i])))
  }

  /** The piece after a quarter turn to the right: `(x, y)` becomes `(-y, x)`. */
  function RotatedRight(p: Piece): (r: Piece) {
    Piece(p.colour, seq(4, i requires 0 <= i < 4 => TurnRight(p.offsets[i])))
  }

  /** `Piece::rotate_left`: a loop that rewrites the four offsets one by one. */
  method RotateLeft(p: Piece) returns (r: Piece)
    ensures r == RotatedLeft(p)
  {
    var offsets := p.offsets;
    for i := 0 to 4
      invariant forall j :: 0 <= j < i ==> offsets[j] == TurnLeft(p.offsets[j])
      invariant forall j :: i <= j < 4 ==> offsets[j] == p.offsets[j]
    {
      var oldX := offsets[i].x;
      offsets := offsets[i := Pos(offsets[i].y, -oldX)];
    }
    r := p.(offsets := offsets);
  }

  /** `Piece::rotate_right`. */
  method RotateRight(p: Piece) returns (r: Piece)
    ensures r == RotatedRight(p)
  {
    var offsets := p.offsets;
    for i := 0 to 4
      invariant forall j :: 0 <= j < i ==> offsets[j] == TurnRight(p.offsets[j])
      invariant forall j :: i <= j < 4 ==> offsets[j] == p.offsets[j]
    {
      var oldX := offsets[i].x;
      offsets := offsets[i := Pos(-offsets[i].y, oldX)];
    }
    r := p.(offsets := offsets);
  }

  /** A right turn undoes a left turn and a left turn undoes a right turn. */
  lemma RotationsAreInverse(p: Piece)
    ensures RotatedRight(RotatedLeft(p)) == p
    ensures RotatedLeft(RotatedRight(p)) == p
  {
    assert RotatedRight(RotatedLeft(p)).offsets == p.offsets;
    assert RotatedLeft(RotatedRight(p)).offsets == p.offsets;
  }

  /** Four left turns give back the piece itself. */
  lemma FourLeftTurnsAreIdentity(p: Piece)
    ensures RotatedLeft(RotatedLeft(RotatedLeft(RotatedLeft(p)))) == p
  {
    var q := RotatedLeft(RotatedLeft(p));
    assert forall i :: 0 <= i < 4 ==> q.offsets[i] == Pos(-p.offsets[i].x, -p.offsets[i].y);
    assert RotatedLeft(RotatedLeft(q)).offsets == p.offsets;
  }

  /** Rotation keeps the colour, keeps the offsets distinct and near the pivot. */
  lemma RotationKeepsWellFormed(p: Piece)
    requires WellFormed(p)
    ensures WellFormed(RotatedLeft(p)) && RotatedLeft(p).colour == p.colour
    ensures WellFormed(RotatedRight(p)) && RotatedRight(p).colour == p.colour
  {
  }

  // ------------------------------------------------------------------ points

  /** `Piece::points(origin)`: the four absolute cells, origin plus each
      offset, in offset order. */
  function Points(p: Piece, origin: Pos): (r: seq<Pos>)
    ensures |r| == 4
    ensures forall i :: 0 <= i < 4 ==>
      r[i].x - origin.x == p.offsets[i].x && r[i].y - origin.y == p.offsets[i].y
  {
    seq(4, i requires 0 <= i < 4 => Pos(origin.x + p.offsets[i].x, origin.y + p.offsets[i].y))
  }

  /** Distinct offsets give four distinct cells at every origin. */
  lemma PointsDistinct(p: Piece, origin: Pos)
    requires Distinct(p.offsets)
    ensures Distinct(Points(p, origin))
  {
    forall i, j | 0 <= i < j < 4
      ensures Points(p, origin)[i] != Points(p, origin)[j]
    {
      assert p.offsets[i] != p.offsets[j];
    }
  }

  /** The cells of a piece are shifted by exactly the shift of its origin. */
  lemma PointsTranslate(p: Piece, origin: Pos, dx: int, dy: int)
    ensures forall i :: 0 <= i < 4 ==>
      Points(p, Pos(origin.x + dx, origin.y + dy))[i] ==
      Pos(Points(p, origin)[i].x + dx, Points(p, origin)[i].y + dy)
  {
  }

  // ------------------------------------------------------------ moving piece

  /** A piece bound to the board position of its pivot. */
  datatype MovingPiece = MovingPiece(pos: Pos, piece: Piece)

  /** The cells a moving piece covers. */
  function Cells(m: MovingPiece): (r: seq<Pos>) {
    Points(m.piece, m.pos)
  }

  /** `MovingPiece::new`: the pivot is centred horizontally, two rows above the
      top of the board. */
  function Spawn(p: Piece): (m: MovingPiece)
    ensures m.piece == p
    ensures m.pos.x == Width / 2 && m.pos.y == -2
  {
    MovingPiece(Pos(Width / 2, -2), p)
  }
}
