/** The room adapter (`world.go`): the colour each layout rune is drawn in, the
    walkability that `newWorld` imposes on the grid cells, and the scaling of a
    cell route into world-space waypoints.

    The grid and the route come from a path-finding library whose workings are not
    part of this model: the grid its constructor builds from the layout, and the
    cells its search returns, are parameters here. */
module Rooms {
  import opened Vectors

  /** `tileSize`: the side of one tile in world units. */
  const TileSize: int := 16

  /** The four colours the background is drawn in. */
  datatype Colour = Grey | Brown | Green | Black

  /** The colour of a tile: walls (`'x'`) grey, ladders (`'|'`) brown, platforms
      (`'-'`) green, and everything else black. */
  function TileColour(ch: char): (c: Colour)
    ensures c == Grey <==> ch == 'x'
    ensures c == Brown <==> ch == '|'
    ensures c == Green <==> ch == '-'
    ensures c == Black <==> ch != 'x' && ch != '|' && ch != '-'
  {
    match ch
    case 'x' => Grey
    case '|' => Brown
    case '-' => Green
    case _ => Black
  }

  /** Only black is shared by several runes: any other colour names its rune. */
  lemma ColourNamesRune(a: char, b: char)
    requires TileColour(a) == TileColour(b) != Black
    ensures a == b
  {
  }

  /** A cell of the library's grid: its coordinates, the layout rune it was made
      from, and whether the path search may cross it. */
  datatype Cell = Cell(x: int, y: int, rune: char, walkable: bool)

  type Grid = seq<seq<Cell>>

  /** Two grids with rows of the same lengths. */
  predicate SameShape(g: Grid, h: Grid) {
    |g| == |h| && forall i :: 0 <= i < |g| ==> |g[i]| == |h[i]|
  }

  /** `g` and `h` hold the same cells except perhaps for their walkability. */
  predicate SameCells(g: Grid, h: Grid) {
    SameShape(g, h) &&
    forall i, j :: 0 <= i < |g| && 0 <= j < |g[i]| ==> g[i][j].(walkable := h[i][j].walkable) == h[i][j]
  }

  /** Clears `walkable` on every cell whose rune is `ch`, as the loops over
      `room.GetCellsByRune(ch)` do. */
  function DisableRune(g: Grid, ch: char): (r: Grid)
    ensures SameCells(r, g)
    ensures forall i, j :: 0 <= i < |r| && 0 <= j < |r[i]| ==>
              (r[i][j].walkable <==> g[i][j].walkable && g[i][j].rune != ch)
  {
    seq(|g|, i requires 0 <= i < |g| =>
      seq(|g[i]|, j requires 0 <= j < |g[i]| =>
        if g[i][j].rune == ch then g[i][j].(walkable := false) else g[i][j]))
  }

  /** Clearing a rune twice is clearing it once. */
  lemma DisableRuneIdempotent(g: Grid, ch: char)
    ensures DisableRune(DisableRune(g, ch), ch) == DisableRune(g, ch)
  {
    var once := DisableRune(g, ch);
    var twice := DisableRune(once, ch);
    assert |twice| == |once|;
    forall i | 0 <= i < |once|
      ensures twice[i] == once[i]
    {
      assert |twice[i]| == |once[i]|;
    }
  }

  /** The two clearing loops of `newWorld` may run in either order. */
  lemma DisableRuneCommutes(g: Grid, a: char, b: char)
    ensures DisableRune(DisableRune(g, a), b) == DisableRune(DisableRune(g, b), a)
  {
    var ab := DisableRune(DisableRune(g, a), b);
    var ba := DisableRune(DisableRune(g, b), a);
    assert |ab| == |ba|;
    forall i | 0 <= i < |ab|
      ensures ab[i] == ba[i]
    {
      assert |ab[i]| == |ba[i]|;
    }
  }

  /** A `World`: the background colours, the room grid, and the two dimensions in
      the fields the source stores them in. */
  datatype World = World(background: seq<seq<Colour>>, room: Grid, width: int, height: int)

  /** `newWorld`, given the grid the library builds from `layout`. The background
      shows every tile of every row in its rune's colour (the image itself is sized
      by the first row, which is not modelled). Walls and air (`'x'`, `' '`) become
      impassable and every other cell keeps the walkability the library gave it.
      The source reads `layout[0]`, so the layout must have a row. The number of
      rows lands in `width` and the length of the first row in `height`: the
      source assigns them crosswise, and the model keeps that. */
  function NewWorld(layout: seq<string>, room: Grid): (w: World)
    requires |layout| > 0
    ensures w.width == |layout| && w.height == |layout[0]|
    ensures |w.background| == |layout|
    ensures forall y :: 0 <= y < |layout| ==> |w.background[y]| == |layout[y]|
    ensures forall y, x :: 0 <= y < |layout| && 0 <= x < |layout[y]| ==>
              w.background[y][x] == TileColour(layout[y][x])
    ensures SameCells(w.room, room)
    ensures forall i, j :: 0 <= i < |room| && 0 <= j < |room[i]| ==>
              (w.room[i][j].walkable <==>
                 room[i][j].walkable && room[i][j].rune != 'x' && room[i][j].rune != ' ')
  {
    var height := |layout|;
    var width := |layout[0]|;
    var background := seq(|layout|, y requires 0 <= y < |layout| =>
                        seq(|layout[y]|, x requires 0 <= x < |layout[y]| => TileColour(layout[y][x])));
    var walls := DisableRune(room, 'x');
    World(background, DisableRune(walls, ' '), height, width)
  }

  /** The grid cells were made from the layout's runes, one per tile. */
  predicate BuiltFrom(room: Grid, layout: seq<string>) {
    |room| == |layout| &&
    forall y :: 0 <= y < |layout| ==>
      |room[y]| == |layout[y]| &&
      forall x :: 0 <= x < |layout[y]| ==> room[y][x].rune == layout[y][x]
  }

  /** In a world built over the layout's own grid, every tile drawn grey is a wall
      the path search cannot cross. */
  lemma GreyIsImpassable(layout: seq<string>, room: Grid, y: int, x: int)
    requires |layout| > 0
    requires BuiltFrom(room, layout)
    requires 0 <= y < |layout| && 0 <= x < |layout[y]|
    requires NewWorld(layout, room).background[y][x] == Grey
    ensures !NewWorld(layout, room).room[y][x].walkable
  {
    assert layout[y][x] == 'x';
  }

  /** The world-space position of a cell: its coordinates times `TileSize`,
      multiplied as integers and then converted. */
  function Waypoint(c: Cell): Vec {
    Vec((c.x * TileSize) as real, (c.y * TileSize) as real)
  }

  /** The cell coordinates a world-space position lies in. */
  function CellAt(p: Vec): (int, int) {
    ((p.x / TileSize as real).Floor, (p.y / TileSize as real).Floor)
  }

  /** A waypoint lies in the cell it was made from, so the route can be read back
      from the waypoints. */
  lemma WaypointCell(c: Cell)
    ensures CellAt(Waypoint(c)) == (c.x, c.y)
  {
    assert Waypoint(c).x / TileSize as real == c.x as real;
    assert Waypoint(c).y / TileSize as real == c.y as real;
  }

  /** Two cells share a waypoint exactly when they have the same coordinates. */
  lemma WaypointInjective(a: Cell, b: Cell)
    ensures Waypoint(a) == Waypoint(b) <==> a.x == b.x && a.y == b.y
  {
    WaypointCell(a);
    WaypointCell(b);
  }

  /** The waypoints of a route, one per cell and in the route's order. */
  function ScalePath(route: seq<Cell>): (path: seq<Vec>)
    ensures |path| == |route|
    ensures forall i :: 0 <= i < |route| ==> path[i] == Waypoint(route[i])
  {
    if |route| == 0 then [] else [Waypoint(route[0])] + ScalePath(route[1..])
  }

  /** Scaling a route piece by piece gives the same waypoints as scaling it whole. */
  lemma ScalePathAppend(a: seq<Cell>, b: seq<Cell>)
    ensures ScalePath(a + b) == ScalePath(a) + ScalePath(b)
  {
    assert |ScalePath(a + b)| == |ScalePath(a) + ScalePath(b)|;
    forall i | 0 <= i < |a + b|
      ensures ScalePath(a + b)[i] == (ScalePath(a) + ScalePath(b))[i]
    {
      if i < |a| {
        assert (a + b)[i] == a[i];
      } else {
        assert (a + b)[i] == b[i - |a|];
      }
    }
  }

  /** Reading every waypoint back to its cell gives the route's coordinates. */
  lemma ScalePathCells(route: seq<Cell>, i: int)
    requires 0 <= i < |route|
    ensures CellAt(ScalePath(route)[i]) == (route[i].x, route[i].y)
  {
    WaypointCell(route[i]);
  }

  /** `findPath`, given the cells the library's search returned: it appends one
      waypoint per cell, in order, so an empty route gives an empty path. */
  method FindPath(route: seq<Cell>) returns (path: seq<Vec>)
    ensures |path| == |route|
    ensures forall i :: 0 <= i < |route| ==> path[i] == Waypoint(route[i])
    ensures path == ScalePath(route)
  {
    path := [];
    var i := 0;
    while i < |route|
      invariant 0 <= i <= |route|
      invariant |path| == i
      invariant forall k :: 0 <= k < i ==> path[k] == Waypoint(route[k])
    {
      path := path + [Waypoint(route[i])];
      i := i + 1;
    }
  }
}
