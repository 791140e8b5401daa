# Hunting behaviour: steering and room adapter

A Dafny model of the two pure pieces of the `huntingbehaviour` demo.

- **The steering step of a creature** (`creature.go`). A creature holds a position, a velocity, a path of waypoints, and the index `currentNode` of the waypoint it heads for.
  - `followPath` returns the vector from the position to that waypoint. It moves the index on once the waypoint is closer than 20.
  - `move` caps that vector at `maxAcceleration` (0.5) and adds it to the velocity. It then caps the velocity at `maxSpeed` (2) and moves the position by the velocity.
- **The room adapter** (`world.go`).
  - `newWorld` colours every tile of the layout by its rune. It makes walls (`'x'`) and air (`' '`) impassable in the path-finding grid, and stores the layout's dimensions.
  - `findPath` turns the cells of a route into world-space waypoints by multiplying their coordinates by the tile size (16).

Files:

- `vectors.dfy` (module `Vectors`): the 2-D vector operations the creature uses, over `real`. It also holds the products-of-reals lemmas that the length proofs rest on.
- `creatures.dfy` (module `Creatures`): `FollowPath`, the length cap `Limit`, the capped steering force `Force`, `Move`, and `Run`, which is `n` moves in a row.
- `rooms.dfy` (module `Rooms`): tile colours, the walkability override, `NewWorld`, waypoints, and `FindPath`.

Dafny's reals have no square root. Every length therefore takes the square root as a parameter `root` with the precondition `IsSqrt(root)`. The contracts are mostly stated over the squared length `LenSq`:

- "length at most 2" reads `LenSq(v) <= 4`;
- "closer than 20" reads `LenSq(d) < 400`;
- "same direction" reads `SameDirection(a, b)`: a zero cross product and a positive dot product.

Two behaviours of the code are kept as written:

- An exhausted path is outside the model: every step requires `HasTarget`, because `followPath` indexes `path[currentNode]` unguarded (creature.go:37).
- `newWorld` stores the number of rows in `width` and the length of the first row in `height`. The model keeps that crosswise assignment.

## Model

| member | source | states |
|---|---|---|
| `Vectors.To` | huntingbehaviour/creature.go:45 | the displacement carries the position onto the target, and it is the same vector as `target.Sub(pos)` |
| `Vectors.Len` | huntingbehaviour/creature.go:40 | a length is non-negative, its square is the squared length, and it is positive exactly for non-zero vectors |
| `Vectors.Unit` | huntingbehaviour/creature.go:21 | `Unit` is defined only on non-zero vectors; the result has length 1 and points the same way as its argument |
| `Vectors.LenCompare` | huntingbehaviour/creature.go:20 | `Len(v) > k` and `Len(v) < k` hold exactly when `LenSq(v) > k*k` and `LenSq(v) < k*k`, for every `k >= 0` |
| `Vectors.ScaledUnit` | huntingbehaviour/creature.go:28 | `v.Unit().Scaled(k)` has squared length `k*k` and points the way `v` does |
| `Vectors.LenScaledUnit` | huntingbehaviour/creature.go:21 | `v.Unit().Scaled(k)` has length exactly `k`, for non-zero `v` and every `k >= 0` |
| `Creatures.FollowPath` | huntingbehaviour/creature.go:36-46 | requires a valid index; the steering vector leads from the position to the waypoint read before the index moves; the index goes up by one exactly when that waypoint is closer than 20 and otherwise stays; nothing else changes |
| `Creatures.Limit` | huntingbehaviour/creature.go:19-29 | after the cap a vector is no longer than the cap; one within the cap is returned unchanged (never scaled up); a longer one comes out with exactly the cap's length and the same direction; `Unit` is reached only for non-zero vectors |
| `Creatures.Force` | huntingbehaviour/creature.go:17-22 | the force added to the velocity is at most 0.5 long; it equals the vector to the waypoint when that is within 0.5, and otherwise has length exactly 0.5 and points the same way |
| `Creatures.Move` | huntingbehaviour/creature.go:16-33 | the new speed is at most 2; the velocity plus force is kept when within 2, and otherwise scaled to length 2 without turning; the new position is the old one plus the new velocity; the path is unchanged; the index rises by one exactly when the waypoint was closer than 20, and otherwise stays; the index stays within `0..len(path)` |
| `Creatures.Run` | huntingbehaviour/creature.go:16-33 | `n` moves are safe when `n` waypoints remain; they keep the path, move the index up by at most `n` and never down, and leave the speed within 2 |
| `Creatures.RunLast` | huntingbehaviour/creature.go:37 | after `n` of `n + 1` safe moves there is still a waypoint to head for, and the last move is an ordinary `Move` |
| `Creatures.RunMonotone` | huntingbehaviour/creature.go:41-43 | the waypoint index after `m` moves is at most the index after `n >= m` moves |
| `Rooms.TileColour` | huntingbehaviour/world.go:27-36 | `'x'` is drawn grey, the vertical bar brown, `'-'` green, and exactly the remaining runes black |
| `Rooms.ColourNamesRune` | huntingbehaviour/world.go:27-36 | two runes with the same non-black colour are the same rune |
| `Rooms.DisableRune` | huntingbehaviour/world.go:45-47 | cells with the given rune become impassable; every other cell keeps its walkability; no other cell field changes |
| `Rooms.DisableRuneIdempotent` | huntingbehaviour/world.go:45-47 | clearing the same rune twice is the same as clearing it once |
| `Rooms.DisableRuneCommutes` | huntingbehaviour/world.go:44-52 | the wall loop and the air loop give the same grid in either order |
| `Rooms.NewWorld` | huntingbehaviour/world.go:18-60 | requires a non-empty layout; `width` is the number of rows and `height` the length of the first row; each background tile has its rune's colour; a cell is walkable afterwards exactly when it was and its rune is neither `'x'` nor `' '`; no other cell field changes |
| `Rooms.GreyIsImpassable` | huntingbehaviour/world.go:27-47 | when the grid was built from the layout, every tile drawn grey is impassable |
| `Rooms.WaypointCell` | huntingbehaviour/world.go:65 | a waypoint lies in the cell it was made from: dividing by the tile size and rounding down gives back the cell's coordinates |
| `Rooms.WaypointInjective` | huntingbehaviour/world.go:65 | two cells have the same waypoint exactly when they have the same coordinates |
| `Rooms.ScalePath` | huntingbehaviour/world.go:63-67 | one waypoint per cell, in the route's order, each the cell's coordinates times 16 |
| `Rooms.ScalePathAppend` | huntingbehaviour/world.go:63-67 | scaling a concatenated route is concatenating the scaled pieces |
| `Rooms.ScalePathCells` | huntingbehaviour/world.go:65 | each waypoint of a scaled route reads back to the coordinates of its cell |
| `Rooms.FindPath` | huntingbehaviour/world.go:62-68 | the appending loop yields exactly `ScalePath` of the route: the same length, the same order, waypoint `i` from cell `i`, and an empty path for an empty route |

## Left out

- The `gfx` vector library is not part of this model. `Add`, `Sub`, `To`, `Scaled`, `Len` and `Unit` follow their usual meaning, over `real` instead of `float64`.
- Float64 rounding is not modelled. The same holds for the rounding in `float64(cell.X*tileSize)` beyond 2^53 and for 64-bit overflow of `cell.X*tileSize`: integers and reals are exact.
- The square root is a parameter constrained by `IsSqrt`. Dafny's reals have no square root, and a parameter keeps the model free of axioms.
- `Vectors.Unit` requires a non-zero vector. What `gfx` returns for the zero vector lies outside this model. Every call in the creature code is proved to meet the requirement.
- Drawing is reduced to a grid of colours, one per tile of every row. The source image is `len(layout[0])*16` wide and `len(layout)*16` high (world.go:19-21). On a ragged layout, tiles beyond the first row's length are clipped, and short rows leave transparent tiles; the model does not track this. `gfx.NewImage`, `drawTile`, the RGBA values of the `colornames` colours, and all of `main.go` (the layout, GIF frames, file export) are left out.
- Layout rows are sequences of characters, and a tile's column is its character index. Go's `range` over a string steps by UTF-8 byte offset, and `len(layout[0])` counts bytes. Both agree with the model for single-byte runes only.
- The `paths` library is represented by parameters: `NewWorld` takes the grid that `NewGridFromStringArrays` builds, and `FindPath` takes the route that `GetPath` returns. `GetCellsByRune` is modelled by its effect. Because the search is a parameter, `findPath`'s `start` and `dest` arguments do not appear. The search algorithm and the default walkability of cells are left out.
- Cells are shared by reference in the source and are changed in place. The model replaces them with a grid value that is rebuilt with the new walkability.
- Nothing is modelled after the path is exhausted. The source indexes `path[currentNode]` unguarded, so every step requires `HasTarget`.
- `Creatures.Run` requires `n` waypoints left from the current one. That is enough for every step to have a target whatever the arrivals. A run that is longer but still safe because the creature arrives late is not covered.
