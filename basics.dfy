/** Shared vocabulary of the game: fixed-width integers, board positions,
    the board's dimensions and Rust's `Option`. */
module Basics {

  /** Rust's `u8`: cell values, piece colours and the move timer. */
  newtype u8 = x: int | 0 <= x < 256

  /** `GAME_GRID_WIDTH` and `GAME_GRID_HEIGHT`. */
  const Width: int := 10
  const Height: int := 20

  /** `NUM_COLOURS`: a cell whose value is below this is locked. */
  const NumColours: int := 7

  /** The value of an empty cell. */
  const EmptyCell: u8 := 255

  /** A position on (or above) the board. The source stores both coordinates
      as `i8`; they are unbounded here, and the game's invariant shows that
      they never leave the `i8` range. */
  datatype Pos = Pos(x: int, y: int)

  predicate IsI8(v: int) {
    -128 <= v < 128
  }

  /** Both coordinates are representable as `i8`. */
  predicate FitsI8(p: Pos) {
    IsI8(p.x) && IsI8(p.y)
  }

  datatype Option<T> = None | Some(value: T)

  /** `v as usize` on a 64-bit target for an `i8` value `v`: a negative value
      wraps around to a huge index that no row or column has. */
  function AsUsize(v: int): (r: int)
    requires IsI8(v)
    ensures 0 <= v ==> r == v
    ensures v < 0 ==> r >= 0x1_0000_0000_0000_0000 - 128
  {
    if v < 0 then v + 0x1_0000_0000_0000_0000 else v
  }

  /** `slice::get`: the element at index `i`, if there is one. */
  function Get<T>(s: seq<T>, i: int): (r: Option<T>)
    ensures r.Some? <==> 0 <= i < |s|
    ensures r.Some? ==> r.value == s[i]
  {
    if 0 <= i < |s| then Some(s[i]) else None
  }
}
