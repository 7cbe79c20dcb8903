/** The level generator's classification of one cell on a solved maze path:
    from the previous and the next cell on the path it decides whether the cell
    is a straight hallway or one of eight corner shapes, and how the block
    placed there is rotated, mirrored and flipped. */
module MazeCells {
  import opened Base

  /** A path cell as its grid coordinates `(x, y)`. */
  datatype Cell = Cell(x: int, y: int)

  /** The tuple `(rotation, scale, flip, is_hallway)`; rotation in whole degrees. */
  datatype Settings = Settings(rotation: int, scale: int, flip: bool, isHallway: bool)

  /** What the cell gets when no shape is recognised. */
  const Default := Settings(0, 1, false, false)

  /** The three cells line up along x, or along y. */
  predicate Hallway(prev: Cell, cur: Cell, next: Cell) {
    (prev.x == cur.x && next.x == cur.x) || (prev.y == cur.y && next.y == cur.y)
  }

  /** The eight corner shapes, in the order they are tested. */
  datatype Junction = A | B | C | D | E | F | H | I

  /** The neighbour pattern of each corner shape. */
  predicate Matches(j: Junction, prev: Cell, cur: Cell, next: Cell) {
    match j
    case A => prev.x < cur.x && prev.y == cur.y && next.x == cur.x && next.y > cur.y
    case B => prev.x == cur.x && prev.y > cur.y && next.x > cur.x && next.y == cur.y
    case C => prev.x > cur.x && prev.y == cur.y && next.x == cur.x && next.y < cur.y
    case D => prev.x == cur.x && prev.y < cur.y && next.x < cur.x && next.y == cur.y
    case E => prev.x < cur.x && prev.y == cur.y && next.x == cur.x && next.y < cur.y
    case F => prev.x == cur.x && prev.y < cur.y && next.x > cur.x && next.y == cur.y
    case H => prev.x > cur.x && prev.y == cur.y && next.x == cur.x && next.y > cur.y
    case I => prev.x == cur.x && prev.y > cur.y && next.x < cur.x && next.y == cur.y
  }

  /** The settings each corner shape assigns; F, H and I leave `flip` at its default. */
  function Table(j: Junction): (r: Settings)
    ensures !r.isHallway && (r.scale == 1 || r.scale == -1)
    ensures r.scale == 1 ==> r.flip
  {
    match j
    case A => Settings(0, 1, true, false)
    case B => Settings(90, 1, true, false)
    case C => Settings(180, 1, true, false)
    case D => Settings(270, 1, true, false)
    case E => Settings(0, -1, true, false)
    case F => Settings(-90, -1, false, false)
    case H => Settings(-180, -1, false, false)
    case I => Settings(-270, -1, false, false)
  }

  /** The first corner shape, in testing order, whose pattern the cells match. */
  function FirstJunction(prev: Cell, cur: Cell, next: Cell): (r: Option<Junction>)
    ensures r.Some? ==> Matches(r.value, prev, cur, next)
    ensures r.None? <==> forall j: Junction :: !Matches(j, prev, cur, next)
  {
    if Matches(A, prev, cur, next) then Some(A)
    else if Matches(B, prev, cur, next) then Some(B)
    else if Matches(C, prev, cur, next) then Some(C)
    else if Matches(D, prev, cur, next) then Some(D)
    else if Matches(E, prev, cur, next) then Some(E)
    else if Matches(F, prev, cur, next) then Some(F)
    else if Matches(H, prev, cur, next) then Some(H)
    else if Matches(I, prev, cur, next) then Some(I)
    else None
  }

  /** The settings of `cur` between `prev` and `next`. */
  function Shape(prev: Cell, cur: Cell, next: Cell): (r: Settings)
    ensures r.isHallway <==> Hallway(prev, cur, next)
    ensures r.scale == 1 || r.scale == -1
  {
    if Hallway(prev, cur, next) then
      if prev.x == cur.x && prev.y < cur.y then Settings(-90, 1, true, true)
      else if prev.x == cur.x && prev.y > cur.y then Settings(90, 1, true, true)
      else Settings(0, 1, false, true)
    else
      match FirstJunction(prev, cur, next)
      case Some(j) => Table(j)
      case None => Default
  }

  /** `get_cell_settings(cells, cell_idx)`: the neighbours are read with Python
      indexing, so index 0 takes the last cell as its predecessor, and an index
      whose successor lies past the end raises an `IndexError` (None here). */
  function GetCellSettings(cells: seq<Cell>, idx: int): (r: Option<Settings>)
    ensures r.Some? <==> 1 - |cells| <= idx <= |cells| - 2
    ensures 0 < idx < |cells| - 1 ==> r == Some(Shape(cells[idx - 1], cells[idx], cells[idx + 1]))
    ensures idx == 0 && |cells| >= 2 ==> r == Some(Shape(cells[|cells| - 1], cells[0], cells[1]))
  {
    var len := |cells|;
    if 1 - len <= idx <= len - 2 then
      Some(Shape(cells[PyIndex(len, idx - 1)], cells[PyIndex(len, idx)], cells[PyIndex(len, idx + 1)]))
    else
      None
  }

  /** A hallway is turned a quarter and flipped only when it runs along y, with
      the sign of the turn set by the side the path comes from; otherwise it
      keeps rotation 0 and no flip. The scale of a hallway is always 1. */
  lemma HallwayOrientation(prev: Cell, cur: Cell, next: Cell)
    requires Hallway(prev, cur, next)
    ensures var r := Shape(prev, cur, next);
      r.scale == 1 &&
      (prev.x == cur.x && prev.y < cur.y ==> r.rotation == -90 && r.flip) &&
      (prev.x == cur.x && prev.y > cur.y ==> r.rotation == 90 && r.flip) &&
      (!(prev.x == cur.x && prev.y != cur.y) ==> r.rotation == 0 && !r.flip)
  {
  }

  /** No two corner patterns overlap, so the testing order never matters. */
  lemma JunctionsDisjoint(j1: Junction, j2: Junction, prev: Cell, cur: Cell, next: Cell)
    requires Matches(j1, prev, cur, next) && Matches(j2, prev, cur, next)
    ensures j1 == j2
  {
  }

  /** A corner pattern is never a hallway. */
  lemma JunctionIsNoHallway(j: Junction, prev: Cell, cur: Cell, next: Cell)
    requires Matches(j, prev, cur, next)
    ensures !Hallway(prev, cur, next)
  {
  }

  /** Each corner pattern yields exactly its entry of the table. */
  lemma JunctionTable(j: Junction, prev: Cell, cur: Cell, next: Cell)
    requires Matches(j, prev, cur, next)
    ensures Shape(prev, cur, next) == Table(j)
  {
    JunctionIsNoHallway(j, prev, cur, next);
    JunctionsDisjoint(FirstJunction(prev, cur, next).value, j, prev, cur, next);
  }

  /** Cells that are neither a hallway nor a corner keep every default. */
  lemma UnrecognisedShapeDefaults(prev: Cell, cur: Cell, next: Cell)
    requires !Hallway(prev, cur, next)
    requires forall j: Junction :: !Matches(j, prev, cur, next)
    ensures Shape(prev, cur, next) == Default
  {
  }

  /** A cell is flipped only as a turned hallway or as one of the corners
      A to E; a mirrored block (scale -1) is always a corner. */
  lemma FlipAndMirrorOnlyWhereSet(prev: Cell, cur: Cell, next: Cell)
    ensures var r := Shape(prev, cur, next);
      (r.flip ==> (r.isHallway && (r.rotation == 90 || r.rotation == -90)) ||
                  (FirstJunction(prev, cur, next).Some? && FirstJunction(prev, cur, next).value in {A, B, C, D, E})) &&
      (r.scale == -1 ==> !r.isHallway && FirstJunction(prev, cur, next).Some?)
  {
  }
}
