# Framebuffer, map overlay and actor depth-sorter of a raycasting game scene

This project models the part of the SDL2 game framework's raycasting `GameScene` that is
plain logic rather than rendering plumbing. Each frame, the scene draws into a software
framebuffer: a row-major vector of packed 32-bit RGBA colours, `width * height` texels
long. The scene clears it, writes pixels with a bounds check, fills clipped rectangles and
draws a 2-D overlay of the tile map. It also orders its actors by distance to the player
with a top-down merge sort. The `GameMap` object holds the tile grid, a string with one
character per tile where `' '` is empty and `'0'..'9'` select a wall sprite. It answers
tile queries, derives its on-screen tile size, and flips its overlay toggle when M is
pressed.

Modules:

- `Raster` (`raster.dfy`): row-major addressing, where cell (x, y) of a grid `w` wide is
  index `x + y * w`, and the division and remainder lemmas that decode an index back to its
  cell.
- `Color` (`color.dfy`): `pack_color` and `is_transparent_pixel` on `bv32` colours with
  `bv8` channels.
- `ActorSort` (`actor_sort.dfy`): `merge` and `sort_actors`. Each is a method on arrays,
  proved against the pure specifications `Merged` and `MergeSort`, which are proved to
  permute and to sort. An actor is reduced to an identity and its distance to the player.
- `GameMaps` (`game_map.dfy`): the class `GameMap` with `is_empty`, `get_sprite_index`,
  `update` and `on_notify`. Keys and events are datatypes, and the toggle over a stream of
  events is a function.
- `Scenes` (`game_scene.dfy`): the class `GameScene` with the framebuffer as an
  `array<bv32>`, and `clear`, `set_pixel`, `draw_rectangle` and `draw_map` as methods.
  Each drawing method states the colour of every texel afterwards. `draw_map` is specified
  by the overlay function `MapOverlay`: a pixel takes the wall colour of the non-empty tile
  whose block contains it, and otherwise keeps its colour.

The two core files come from different revisions of the repository. `draw_map` in
`game_scene.cpp` loops over `map->h` rows and `map->w` columns. In `game_map.cpp`, `w` and
`h` are the map's pixel extent (100 by default), and the tile counts are named
`x_tiles_count` and `y_tiles_count`. The model follows the tile counts, which are what
`is_empty` and `get_sprite_index` bound their arguments by.

The only base case of `sort_actors` is a vector of size 1 (game_scene.cpp:50).
`SortActorsAsWritten` keeps that base case, with a bound on the recursion depth.
`MergeSort` and `SortActors` use a base case of at most one element, so an empty vector
is returned unchanged (see "Findings").
`pack_color` adds the shifted channels with `+`; `PackColorValue` shows that no channel
carries into the next.

## Model

| member | source | states |
|---|---|---|
| Color.PackColor | src/scene/scenes/game_scene.cpp:312-315 | each of a, b, g and r comes back out of its own byte of the packed colour by shift-and-mask |
| Color.PackOpaque | src/scene/scenes/game_scene.cpp:312-315 | packing with the default alpha gives an alpha byte of 0xFF |
| Color.PackColorValue | src/scene/scenes/game_scene.cpp:312-315 | the packed word, read as an unsigned number, is a*2^24 + b*2^16 + g*2^8 + r, so the additions never carry or wrap |
| Color.IsTransparent | src/scene/scenes/game_scene.cpp:306-310 | a colour is transparent exactly when its value is below 2^24, that is, when its opacity byte is zero |
| Color.TransparentIffAlphaZero | src/scene/scenes/game_scene.cpp:306-315 | a packed colour is transparent if and only if it was packed with alpha 0 |
| Color.OpaqueIsNotTransparent | src/scene/scenes/game_scene.cpp:306-315 | a colour packed with the default alpha is never treated as transparent |
| Raster.IndexInBounds | src/scene/scenes/game_scene.cpp:274-278 | every in-frame pixel (x < w, y < h) has a flat index below w * h, so the write in set_pixel is in range |
| Raster.IndexDecodes | src/scene/scenes/game_scene.cpp:277 | the index x + y * w of a pixel with x < w gives back x as its remainder and y as its quotient by w |
| Raster.IndexEncodes | src/scene/scenes/game_scene.cpp:277 | every index below w * h is the index of the in-frame pixel (k % w, k / w) |
| Raster.IndexInjective | src/scene/scenes/game_scene.cpp:277 | two in-frame pixels share an index only when they are the same pixel |
| Raster.CellOfIndex | src/scene/scenes/game_scene.cpp:277 | in a w-by-h frame, index k holds pixel (x, y) exactly when (x, y) is in the frame and x + y * w == k |
| Raster.InBlock | src/scene/scenes/game_scene.cpp:113-116 | coordinate x lies in the tile block [c * size, c * size + size) exactly when x / size == c |
| ActorSort.Merged | src/scene/scenes/game_scene.cpp:67-101 | the merged sequence is exactly as long as both halves together |
| ActorSort.MergedPermutes | src/scene/scenes/game_scene.cpp:67-101 | the merge outputs a permutation of the two halves: no actor is lost or duplicated |
| ActorSort.MergedAscending | src/scene/scenes/game_scene.cpp:67-101 | merging two halves that are ascending by distance gives an ascending result |
| ActorSort.MergeTieTakesRight | src/scene/scenes/game_scene.cpp:90-99 | on equal distances the right half's actor is emitted first, so the sort is not stable |
| ActorSort.Merge | src/scene/scenes/game_scene.cpp:67-101 | the two-cursor loop writes exactly the merge of the halves into the output vector, a permutation of them, ascending when both halves are |
| ActorSort.MergeSort | src/scene/scenes/game_scene.cpp:47-65 | sorting keeps the length |
| ActorSort.MergeSortPermutes | src/scene/scenes/game_scene.cpp:47-65 | the sorted sequence is a permutation of the input |
| ActorSort.MergeSortAscending | src/scene/scenes/game_scene.cpp:47-65 | the sorted sequence is ascending by distance to the player |
| ActorSort.SortActors | src/scene/scenes/game_scene.cpp:47-65 | the vector ends up holding the merge sort of its old contents, so it is ascending by distance and a permutation of what it held; an empty vector is left as it is |
| ActorSort.SortActorsAsWritten | src/scene/scenes/game_scene.cpp:47-65 | sort_actors exactly as written, allowed a bounded number of nested calls (None means it was still recursing); it returns only for a non-empty vector |
| ActorSort.EmptyInputNeverReturns | src/scene/scenes/game_scene.cpp:50-62 | as written, the recursion on an empty vector returns for no depth bound at all |
| ActorSort.AsWrittenAgreesWhenNonEmpty | src/scene/scenes/game_scene.cpp:47-65 | as written, on a non-empty vector the recursion returns within n nested calls, with the merge sort's result |
| GameMaps.Toggle | src/scene/objects/game_map.cpp:67-81 | the toggle changes if and only if the event is a key-down of M |
| GameMaps.ToggleAllParity | src/scene/objects/game_map.cpp:67-81 | after any stream of events the toggle is flipped exactly when M was pressed an odd number of times |
| GameMaps.ToggleTwiceRestores | src/scene/objects/game_map.cpp:74-76 | pressing M twice restores the toggle |
| GameMaps.TileSize | src/scene/objects/game_map.cpp:22-26 | the tile size is the largest size whose `count` copies fit in the extent |
| GameMaps.GameMap.constructor | src/scene/objects/game_map.cpp:12-13 | a new map has the 100 by 100 pixel extent, no tile size yet and the overlay off |
| GameMaps.GameMap.TileIndex | src/scene/objects/game_map.cpp:17 | under the size invariant, the flat position col + row * x_tiles_count of any in-grid tile is in range and holds column col of row row |
| GameMaps.GameMap.IsEmpty | src/scene/objects/game_map.cpp:89-93 | a tile is empty exactly when its character is a space |
| GameMaps.GameMap.SpriteIndex | src/scene/objects/game_map.cpp:83-87 | the sprite index is the tile character minus '0', and it lies in 0..9 exactly when the character is a digit |
| GameMaps.GameMap.Update | src/scene/objects/game_map.cpp:22-26 | the tile width and height become the largest sizes whose column and row counts fit in the map extent; nothing else changes |
| GameMaps.GameMap.OnNotify | src/scene/objects/game_map.cpp:67-81 | a key-down of M flips the overlay toggle; every other event leaves it, and nothing else changes |
| Scenes.GameScene.constructor | src/scene/scenes/game_scene.cpp:15-19 | a new scene holds its map and an empty framebuffer |
| Scenes.GameScene.Clear | src/scene/scenes/game_scene.cpp:300-304 | the buffer is replaced by a fresh one of width * height texels, all of the given colour |
| Scenes.GameScene.SetPixel | src/scene/scenes/game_scene.cpp:274-278 | only texel x + y * width can change, and only when the buffer is sized and (x, y) is inside the frame |
| Scenes.GameScene.DrawRectangle | src/scene/scenes/game_scene.cpp:280-298 | a texel takes the colour exactly when the buffer is sized and its pixel lies in the rectangle (clipped to the frame); every other texel keeps its colour |
| Scenes.GameScene.OverlayBlock | src/scene/scenes/game_scene.cpp:103-125 | the overlay fills the rect_w by rect_h block at (col * rect_w, row * rect_h) of every non-empty tile with that tile's wall colour, and leaves the block of an empty tile as it was |
| Scenes.GameScene.OverlayStep | src/scene/scenes/game_scene.cpp:108-122 | drawing one tile changes the overlay only inside that tile's block, and only when the tile is not empty |
| Scenes.GameScene.OverlayNextRow | src/scene/scenes/game_scene.cpp:105-108 | finishing a row of tiles is the same as starting the next one |
| Scenes.GameScene.TileDrawn | src/scene/scenes/game_scene.cpp:107-123 | one pass of the inner loop extends the drawn overlay by exactly tile (row, col) |
| Scenes.GameScene.RowDrawn | src/scene/scenes/game_scene.cpp:105-124 | one pass of the outer loop leaves the buffer holding the overlay of every full row so far |
| Scenes.GameScene.DrawMap | src/scene/scenes/game_scene.cpp:103-125 | when the buffer is sized, every texel ends up with the map overlay drawn over its old colour; otherwise nothing changes |

## Left out

- `cast_ray`, `draw_actor`, `draw`, `render`, `load`, `unload` and `update` of the scene: ray marching, billboard projection, the depth buffer and the per-frame orchestration are floating-point rendering and scene plumbing. `draw` is also where `rect_w` and `rect_h` are set, so `DrawMap` reads them as the fields they are.
- `GameMap::render`, `create`, `destroy` and the sprite sheet: drawing through the SDL renderer and loading an image file. Of `create`, only its size assertion is kept, as the `Valid` predicate that the tile queries require.
- Scenes.GameScene.DrawMap: the texel colour `wall_sprites->get(0, 0, texture_index)` is the parameter `wallColor`, because the sprite sheet is not part of this model. Its assertion that the index is below the sprite count is not modelled.
- Scenes.GameScene.DrawRectangle: coordinates are unbounded naturals, so the `size_t` wrap-around of `rect_x + curr_w` near 2^64 is not modelled.
- Color.PackColor: the promotion of `uint8_t` to signed `int` before `a << 24` (signed overflow when a >= 128) is not modelled. The result is the intended unsigned 32-bit word.
- ActorSort.SortActors: the distance comparison is on mathematical reals, so `float` rounding, NaN distances and the `float` computation of `ceil(n / 2)` are not modelled. The distance is the actor's value of `get_object_distance(player)` for the frame, and the actor otherwise keeps only an identity. The vector of shared pointers is modelled as an array of values, so aliasing between actors is not captured.
- ActorSort.Merge: the two halves are only read, so they are passed as sequences rather than vectors.
- GameMaps.GameMap.Update: requires non-zero tile counts, because division by zero is undefined behaviour in the source. The elapsed time `dt` is unused there, as in the source.
- GameMaps.GameMap.OnNotify: the console message is not modelled. The header declaring `toggled` is not part of this model, so its initial value is taken to be off.
- The `GameMap` and `GameScene` headers are not part of this model. Map data and tile counts are constructor parameters, and texture width and height are the scene's `width` and `height`.

## Findings

| source | as written | input that shows it | evidently intended | confidence | as-written member | corrected member |
|---|---|---|---|---|---|---|
| src/scene/scenes/game_scene.cpp:50-51 | `sort_actors` returns early only when the vector has exactly one element | an empty actor vector: `ceil(0 / 2)` is 0, both halves are empty, and the call recurses on them forever | return when the vector has at most one element | high; not executed | ActorSort.SortActorsAsWritten, ActorSort.EmptyInputNeverReturns | ActorSort.SortActors |
