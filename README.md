# Katzenstein3D core in Dafny

Katzenstein3D is a small raycasting dungeon game written in Rust on top of macroquad.
This project models its logic:

- `TileMap` (src/map.rs): a `height × width` grid of `i8` tile kinds. The grid starts all solid (`1`). A dungeon generator carves square rooms into it and joins consecutive room centres with L-shaped corridors. Bounds-checked reads treat everything outside the grid as solid. A colour lookup gives each tile kind and contact plane a colour.
- The ray caster (src/raycasting.rs): it enumerates the angles across the player's field of view. For each angle it marches a particle until it lands on a non-empty tile, alternating x and y steps, and reports the contact point, the plane it last advanced on and the tile value.
- The player (src/player.rs): its position, rotation and field of view. Its spawn search takes the first drawn cell whose tile is empty.
- The input handler (src/input_handler.rs): the pause toggle, the global actions, and the movement loop. That loop moves the player only onto empty tiles.

The Dafny modules follow the files:

- `Geometry` holds `Vec2`, `ContactPlane` and Rust's float-to-`usize` cast.
- `Map`, `Players`, `Raycasting` and `InputHandler` each model one source file.
- `Wrappers` holds `Option`.

In the grid model, `TileMap` is a class with a `tiles: seq<seq<int8>>` field that its methods reassign. `width` and `height` are constants. Each state-changing method is proved equal to a value-level function of the old grid:

| method | function |
|---|---|
| `CarveRoom` | `RoomCarved` |
| `ConnectRooms` | `CorridorCarved` |
| `Generate` | `Generated` |

The lemmas about those functions state what generation leaves in each cell.

Generation writes `tiles[y][x]`. `get_tile_value(column, row)` reads `tiles[row][column]`, and every caller passes `(y, x)` for a point `(x, y)`. So all reads of a point see `tiles[x][y]`. The model keeps this exactly as written; `Map.OnEmptyTile` states the transposed read.

Inputs the game takes from the outside world are parameters:

- The random room draws and spawn candidates are given as sequences. They satisfy the ranges `gen_range` needs.
- `cos`/`sin` are a function `trig: real -> Vec2` (`x` is the cosine, `y` the sine).
- `2 * PI` is a parameter `fullTurn`.
- Each frame's list of actions is a sequence.

## Model

| member | source | states |
|---|---|---|
| `Geometry.AsUsize` | src/input_handler.rs:75 | `v as usize` is 0 for negative `v` and the integer part of `v` otherwise. |
| `Map.GetColor` | src/map.rs:25-39 | Value 0 gives white for either plane. Values 1, 2 and 3 give red, green and blue respectively, at 255 for Vertical and 193 for Horizontal, with the other channels 0 and alpha 255. Other values are excluded because the source panics on them. |
| `Map.TileMap.constructor` | src/map.rs:62-80 | The new map has exactly `height` rows of `width` tiles, and every tile is 1. |
| `Map.TileMap.GetTileValue` | src/map.rs:138-145 | Returns `tiles[row][column]` when `row` and `column` are in range, and 1 (solid) otherwise. |
| `Map.TileMap.IsTileEmpty` | src/map.rs:130-136 | True exactly when both indices are in range and that tile is 0; no out-of-range index is empty. |
| `Map.TileMap.CarveRoom` | src/map.rs:106-112 | Requires the rectangle to fit in the grid. Sets exactly the cells of `[y, y+size.y) × [x, x+size.x)` to 0 and leaves every other cell and the grid's shape unchanged. |
| `Map.TileMap.ConnectRooms` | src/map.rs:114-128 | Requires the corridor to fit in the grid. Zeroes row `c1.y` from just past `c1.x` through `c2.x`, then column `c2.x` from just past `c1.y` through `c2.y`. Nothing else changes. Both loops terminate because the distance to the target drops by one per step. |
| `Map.TileMap.Generate` | src/map.rs:82-104 | Requires each draw to fit the `gen_range` ranges. Carves each room in order, then connects each consecutive pair of room centres. The map keeps its shape and ends equal to `Generated` of the old grid. Each corridor's bounds follow from the centres lying inside the grid. |
| `Map.Center` | src/map.rs:95-98 | A room's centre `pos + size / 2` lies inside the room when the size is positive, and is the anchor otherwise. |
| `Map.OnEmptyTile` | src/map.rs:130-145 | A point is on an empty tile exactly when `tiles[x as usize][y as usize]` exists and is 0. This is the transposed read every caller performs. |
| `Map.RoomsCarvedCells` | src/map.rs:86-99 | After the room loop, a cell is 0 if some room covers it, and otherwise keeps its old value. |
| `Map.CorridorsCarvedCells` | src/map.rs:101-103 | After the first `pairs` corridors, a cell is 0 if one of them passes through it, and otherwise keeps its old value. |
| `Map.GeneratedCells` | src/map.rs:82-104 | After generation, each cell is 0 iff it lies in some room or on some corridor between consecutive centres; every other cell keeps its old value. |
| `Map.GenerateOnlyEmpties` | src/map.rs:82-104 | Generation only writes 0. Every cell ends as it was or 0, and a cell that was 0 stays 0. |
| `Map.RoomsEmptyAfterGenerate` | src/map.rs:94 | Every cell of every room is 0 when generation returns, even after later rooms and corridors. |
| `Map.CorridorsEmptyAfterGenerate` | src/map.rs:101-103 | Every cell of the corridor between the centres of rooms `i` and `i + 1` is 0 when generation returns. |
| `Map.NoCorridorBelowTwoRooms` | src/map.rs:101-103 | With fewer than two rooms no corridor is carved, so only room cells change. |
| `Map.GenerateLeavesAnEmptyCell` | src/map.rs:86-98 | If any room has positive size and fits, the generated map has an empty cell: that room's centre. |
| `Players.Player.RandomLocation` | src/player.rs:29-39 | Candidates lie inside the grid. The first candidate whose tile is empty wins: every earlier one is non-empty, and the player moves to `(start_x, start_y)`, a point on an empty tile. With no empty candidate the position is untouched. |
| `Raycasting.AnglesInFov` | src/raycasting.rs:35-46 | Angle `i` is `rotation - fov/2 + i * 0.005`. So the first angle is `rotation - fov/2` and consecutive angles differ by exactly `ANGLE_STEP`. Every angle is below `rotation + fov/2` and the next one would not be. The list is empty iff `fov <= 0`. |
| `Raycasting.FovRayCount` | src/raycasting.rs:41-44 | The number of angles is `fov / 0.005` rounded up, and 0 iff `fov <= 0`. |
| `Raycasting.FovRayCountUnique` | src/raycasting.rs:41-44 | Only one length of sweep covers the field of view, so the pose determines the number of rays. |
| `Raycasting.MarchedClosedForm` | src/raycasting.rs:55-63 | Even counters step x and odd counters step y. So after `k` iterations x has advanced `ceil(k/2)` times and y `floor(k/2)` times. |
| `Raycasting.FirstWallIsFirst` | src/raycasting.rs:54 | The march stops at the first counter whose position is not on an empty tile, with every earlier position empty. If it runs out of fuel, every position up to the bound was empty. |
| `Raycasting.ContactAfterSteps` | src/raycasting.rs:54-73 | If the march stops after `n` iterations, the contact point is the closed-form position after `n` steps. The plane is Horizontal iff `n` is even. The value is the tile value there, or 0 when no step was taken. |
| `Raycasting.ContactProperties` | src/raycasting.rs:50-73 | A finished march ends on a non-empty tile, and its value is nonzero whenever it started on an empty tile. From a wall it reports the start, Horizontal and 0. It fails only if every position within the fuel bound was empty. |
| `Raycasting.ContactFuelMonotone` | src/raycasting.rs:54-66 | More fuel does not change a march that already finished. |
| `Raycasting.GetParticleContactPoint` | src/raycasting.rs:48-74 | The loop's result is the march `Contact` along `(cos angle * 0.05, sin angle * 0.05)` from the player's position, whose properties are the lemmas above. |
| `Raycasting.GetParticlesInView` | src/raycasting.rs:28-33 | One result per angle of the field of view, in order: element `i` is the march along angle `i`. |
| `InputHandler.UnPauseGame` | src/input_handler.rs:101-112 | `Pause` becomes `InGame` and `InGame` becomes `Pause`; the result is `InGame` only from `Pause` and `Pause` only from `InGame`. Other states are left unchanged. |
| `InputHandler.UnPauseGameTwice` | src/input_handler.rs:101-112 | Toggling twice restores the original state. |
| `InputHandler.HandleGlobalInput` | src/input_handler.rs:81-90 | The state is toggled once per `PauseGame` action and other actions are ignored. So it ends toggled iff the number of `PauseGame` actions is odd. |
| `InputHandler.ApplyAction` | src/input_handler.rs:49-77 | After each action, the position is either unchanged or the accumulated `new_position`, and only the latter if its tile is empty. When that tile is empty the player does move there. `new_position` advances from its previous value whether or not the last move was accepted. |
| `InputHandler.PositionStaysEmpty` | src/input_handler.rs:75-77 | From an empty tile, no sequence of actions leads the player onto a non-empty tile. |
| `InputHandler.PendingIgnoresMap` | src/input_handler.rs:45-78 | `new_position` is never reset after a rejected move. The accumulated `new_position` and the rotation do not depend on which moves the map accepted. |
| `InputHandler.TurnsLeavePosition` | src/input_handler.rs:66-72 | `RotateLeft` and `RotateRight` change only the rotation, by `-0.02` and `+0.02`. `PauseGame` changes nothing in the player's state. |
| `InputHandler.TurnAfterActions` | src/input_handler.rs:48-78 | In the loop as the source runs it, from `new_position` equal to the position and after any actions, a rotate or pause action leaves the position and `new_position` unchanged and changes the rotation by `-0.02`, `+0.02` or nothing. |
| `InputHandler.HandlePlayerInput` | src/input_handler.rs:44-79 | The player's final position and rotation are those of the action fold `ApplyActions`, starting from `new_position` equal to the position and the strafe angle `2π - rotation`. The field of view is unchanged, and a player on an empty tile stays on one. |

## Left out

- src/renderer.rs, `draw_walls` (src/raycasting.rs:76-95) and src/main.rs: drawing through macroquad, the window and the frame loop. They contain no logic beyond screen arithmetic.
- Randomness: `thread_rng`, the normal distribution of room sizes and the `gen_range` draws are replaced by supplied sequences that satisfy the ranges `gen_range` requires.
- `Players.Player.RandomLocation`: the source keeps drawing for ever while no candidate is empty; over a finite candidate sequence the model returns `None` instead.
- Trigonometry and `f32` rounding: `cos`/`sin` are an arbitrary function parameter, and `f32` values are exact reals. With `f32`, `angles_in_fov` could stall once the step falls below the angle's precision; with reals it always advances.
- `Raycasting.GetParticleContactPoint`: the march is bounded by a `fuel` parameter and returns `None` when the bound is reached. The source's loop is unbounded. Because the cast to `usize` saturates at 0, it can run for ever: for instance when both coordinates fall below 0 over an empty `tiles[0][0]`, or when the ray runs parallel to a low edge over empty index-0 tiles. The `u32` counter's overflow is not modelled either.
- `Geometry.AsUsize`: the saturation at `usize::MAX` is not modelled; such an index is outside every grid either way.
- `get_actions` and the key bindings `HashMap` (src/input_handler.rs:24-32, 92-98): keyboard polling with unspecified iteration order; the actions of a frame are an input sequence.
- `InputHandler::new`: only its two constants, 0.05 and 0.02, are kept.
- `Player::new` (src/player.rs:21-27): only float constants.
- The cosmetic `Tile` fields `position` and `size` (src/map.rs:8-23): only the tile value is kept.
- `GameState` is declared outside the modelled files. Besides `InGame` and `Pause`, its other variants are stood for by `Other`.
- Colours keep their four 8-bit channel values and are not macroquad's floating-point `Color`.
- `ContactPlane` is declared in the `Geometry` module rather than next to the ray caster, because the map's colour lookup and the ray caster depend on each other.
