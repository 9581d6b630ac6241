/**
 * Grid coordinates and the printable size. The constants are declared in
 * common.h, which is not part of this model; the values here (a grid of
 * 16384 rows and 16384 columns, NONE at (-1, -1), an empty Size of {0, 0})
 * are assumed.
 */
module Positions {
  const MAX_ROWS: int := 16384
  const MAX_COLS: int := 16384

  datatype Position = Position(row: int, col: int) {
    /** Position::IsValid: inside the fixed grid. */
    predicate IsValid() {
      0 <= row < MAX_ROWS && 0 <= col < MAX_COLS
    }
  }

  /** Position::NONE, the sentinel that is never valid. */
  const NONE: Position := Position(-1, -1)

  /** Size {rows, cols}; a default-constructed Size is {0, 0}. */
  datatype Size = Size(rows: int, cols: int)

  const EMPTY_SIZE: Size := Size(0, 0)

  /**
   * `s` is the exact bounding box of `keys`: every key lies inside it and,
   * unless there are no keys, some key sits on its last row and some key on
   * its last column.
   */
  ghost predicate IsBoundingBox(keys: set<Position>, s: Size) {
    && (forall k | k in keys :: 0 <= k.row < s.rows && 0 <= k.col < s.cols)
    && (keys == {} ==> s == EMPTY_SIZE)
    && (keys != {} ==>
          && (exists k | k in keys :: k.row == s.rows - 1)
          && (exists k | k in keys :: k.col == s.cols - 1))
  }

  /** Sheet::SetCell's growth of the printable size so that it covers `pos`. */
  function Grown(s: Size, pos: Position): (g: Size)
    ensures g.rows >= s.rows && g.cols >= s.cols
    ensures g.rows > pos.row && g.cols > pos.col
    ensures g.rows == s.rows || g.rows == pos.row + 1
    ensures g.cols == s.cols || g.cols == pos.col + 1
  {
    Size(if s.rows - 1 < pos.row then pos.row + 1 else s.rows,
         if s.cols - 1 < pos.col then pos.col + 1 else s.cols)
  }

  /** Growing the box on a write keeps it the exact bounding box of the occupied positions. */
  lemma BoundingBoxAfterWrite(keys: set<Position>, s: Size, pos: Position)
    requires IsBoundingBox(keys, s) && pos.IsValid()
    ensures IsBoundingBox(keys + {pos}, Grown(s, pos))
  {
    var g := Grown(s, pos);
    if g.rows != pos.row + 1 {
      var k :| k in keys && k.row == s.rows - 1;
      assert k in keys + {pos};
    }
    if g.cols != pos.col + 1 {
      var k :| k in keys && k.col == s.cols - 1;
      assert k in keys + {pos};
    }
  }

  /** Removing a position off the last row and the last column keeps the box exact. */
  lemma BoundingBoxAfterInnerRemoval(keys: set<Position>, s: Size, pos: Position)
    requires IsBoundingBox(keys, s)
    requires pos.row != s.rows - 1 && pos.col != s.cols - 1
    ensures IsBoundingBox(keys - {pos}, s)
  {
    if keys != {} {
      var r :| r in keys && r.row == s.rows - 1;
      var c :| c in keys && c.col == s.cols - 1;
      assert r in keys - {pos} && c in keys - {pos};
    }
  }

  /** Fewer occupied positions never need a larger box. */
  lemma BoundingBoxShrinks(keys1: set<Position>, s1: Size, keys2: set<Position>, s2: Size)
    requires IsBoundingBox(keys1, s1) && IsBoundingBox(keys2, s2) && keys2 <= keys1
    ensures s2.rows <= s1.rows && s2.cols <= s1.cols
  {
    if keys2 != {} {
      var r :| r in keys2 && r.row == s2.rows - 1;
      var c :| c in keys2 && c.col == s2.cols - 1;
      assert r in keys1 && c in keys1;
    }
  }
}
