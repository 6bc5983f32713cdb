/** A maze cell (`Block` in maze_generator.py): four wall flags, 1 = blocked,
    0 = open, and a visited flag used while the maze is generated. */
module Blocks {

  /** A grid position, row first (the source's `[row, col]` lists). */
  datatype Cell = Cell(row: int, col: int)

  datatype Block = Block(pos: Cell, left: int, right: int, top: int, bottom: int, visited: int)

  /** Every wall flag is 0 or 1, as the source only ever stores those. */
  predicate FlagsOk(b: Block) {
    b.left in {0, 1} && b.right in {0, 1} && b.top in {0, 1} && b.bottom in {0, 1} && b.visited in {0, 1}
  }

  /** Python truthiness of `block.visited`. */
  predicate IsVisited(b: Block) { b.visited != 0 }

  /** `Block(row, col)`: all four walls standing, not visited. */
  function NewBlock(row: int, col: int): (b: Block)
    ensures b.pos == Cell(row, col) && FlagsOk(b) && !IsVisited(b)
    ensures Borders(b) == 4
  {
    Block(Cell(row, col), 1, 1, 1, 1, 0)
  }

  /** `Block.borders()`: the number of standing walls. */
  function Borders(b: Block): (total: int)
    ensures FlagsOk(b) ==> 0 <= total <= 4
    ensures FlagsOk(b) ==> (total == 4 <==> b.left == b.right == b.top == b.bottom == 1)
  {
    b.left + b.top + b.right + b.bottom
  }

  /** Two cells that share a wall: one step along a row or a column. */
  predicate Adjacent(a: Cell, b: Cell) {
    (a.row == b.row && (b.col == a.col - 1 || b.col == a.col + 1)) ||
    (a.col == b.col && (b.row == a.row - 1 || b.row == a.row + 1))
  }

  /** The orthogonal neighbours of a cell in the order `find_neighbours` lists
      them: left, up, right, down. */
  function Candidates(c: Cell): (cs: seq<Cell>)
    ensures |cs| == 4
    ensures forall x :: x in cs <==> Adjacent(c, x)
  {
    [Cell(c.row, c.col - 1), Cell(c.row - 1, c.col), Cell(c.row, c.col + 1), Cell(c.row + 1, c.col)]
  }
}
