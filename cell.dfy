/** One cell of the circular maze: the walls on its inner and right sides, its
    outer wall (only the last ring's cells show it), and whether the carving
    has reached it. */
module Cells {

  datatype Cell = Cell(innerWall: bool, rightWall: bool, visited: bool, outerWall: bool)

  /** A fresh cell: every wall standing and not yet visited. */
  function NewCell(): (c: Cell)
    ensures c.innerWall && c.rightWall && c.outerWall
    ensures !c.visited
  {
    Cell(true, true, false, true)
  }
}
