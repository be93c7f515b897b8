# Rover camera perception, modelled in Dafny

This project models the integer, grid-level core of the rover's camera-to-map
pipeline in `perception.py`: the per-pixel colour rules that pick navigable
terrain, obstacles and rocks out of the warped camera frame; the masking of
that frame by the visibility mask, whose border bands are zeroed in place;
the conversion of selected pixels to rover-frame coordinates; the truncate
and clip step that puts a world position on the map grid; and the in-place
update of the persistent world map, where navigable evidence retracts
obstacle evidence.

Files and modules:

- `bytes.dfy`, module `Bytes`: `uint8` channel values, numpy's `&` as a
  recursive bitwise AND on naturals, and `~v` as 255 - v. Its key lemma is
  that `(v & m) + (~v & m) == m`.
- `classify.dfy`, module `Classify`: `color_thresh`, the selection step of
  `rock_thres`, and the road, obstacle and rock selections of
  `perception_step`, all on value grids.
- `rover.dfy`, module `RoverFrame`: numpy's row-major `nonzero()` and
  `rover_coords`.
- `clip.dfy`, module `WorldClip`: `np.int_` (truncation toward zero) and
  `np.clip`, the last step of `pix_to_world`.
- `masks.dfy`, module `VisibilityMask`: band zeroing on the mask array, the
  `rock_mask` copy, and how the mask confines classification.
- `evidence.dfy`, module `Evidence`: the world map as a value, with marking,
  the clearing rule, and one cycle's fusion, plus their lemmas.
- `worldmap.dfy`, module `WorldMapState`: class `WorldMap`, the persistent
  `array3` map, and the methods that update it in place.

## Model

| member | source | states |
|---|---|---|
| `Bytes.BitAnd` | perception.py:134 | the bitwise AND of two naturals is at most each operand |
| `Bytes.BitAndBit` | perception.py:134 | `BitAnd` is numpy's `&`: bit k of `a & b` is 1 exactly when bit k of `a` and bit k of `b` are both 1 |
| `Bytes.And` | perception.py:134 | numpy's `v & m` on two bytes is a byte no larger than either operand (bit by bit it is `Bytes.BitAndBit`) |
| `Bytes.Complement` | perception.py:128 | `~v` on a byte and `v` add up to 255 |
| `Bytes.ComplementBitN` | perception.py:128 | the n-bit complement `2^n - 1 - v` of an n-bit `v` flips each of its n bits |
| `Bytes.ComplementBit` | perception.py:128 | `~v` on a byte flips each of its eight bits |
| `Bytes.AndComplementSum` | perception.py:128 | for n-bit `v` and `m`, `(v & m) + (~v & m) == m`: the two ANDs split the mask's bits |
| `Bytes.NeverBothAbove160` | perception.py:128 | `(v & m) > 160` and `(~v & m) > 160` never hold together |
| `Bytes.AndFull` | perception.py:134 | `v & 255 == v` |
| `Bytes.FullAnd` | perception.py:128 | `255 & m == m` |
| `Classify.Masked` | perception.py:134 | channel-wise `img & mask`: the image's shape, each channel of each pixel the AND of the image's and the mask's channel, and never above the mask |
| `Classify.Inverted` | perception.py:128 | channel-wise `~img` keeps the shape and each channel plus its complement is 255 |
| `Classify.ColorThresh` | perception.py:6-18 | a single-channel grid of the image's shape; a cell is 1 exactly when red, green and blue are all strictly above their thresholds, else 0 |
| `Classify.RockThres` | perception.py:20-30 | before dilation, a cell is 1 exactly when red and green are strictly above and blue strictly below their thresholds, else 0 |
| `Classify.Road` | perception.py:134 | the road selection before erosion: every cell is 0 or 1, and 1 exactly when every channel of `warped & mask` is above 160 |
| `Classify.Obstacles` | perception.py:128 | the obstacle selection before dilation: every cell is 0 or 1, and 1 exactly when every channel of `~warped & mask` is above 160 |
| `Classify.Rocks` | perception.py:26-30 | the rock selection on the unmasked warped frame (perception.py:138) before the dilation inside `rock_thres`: every cell is 0 or 1, and 1 exactly when red > 110, green > 110 and blue < 40 |
| `Classify.RoadObstacleDisjoint` | perception.py:128 | before morphology, no pixel is selected as both road and obstacle (the selections of lines 128 and 134) |
| `Classify.ConfinedToMask` | perception.py:128 | before morphology, a pixel whose mask is at most 160 on some channel, a zeroed one in particular, is selected neither as road (line 134) nor as obstacle |
| `Classify.FullMaskRules` | perception.py:128 | before morphology and under a full mask, a pixel is selected as obstacle iff every channel is below 95, and as road (line 134) iff every channel is above 160 |
| `Classify.BlackFrame` | perception.py:128 | before morphology, an all-black warped frame selects no road (line 134) and no rock (lines 26-30); it selects an obstacle exactly where every mask channel is above 160 |
| `RoverFrame.RowNonZero` | perception.py:42 | the non-zero columns of one row, each once, left to right |
| `RoverFrame.NonZero` | perception.py:42 | exactly the non-zero cells of the grid, each once, in strictly increasing row-major order |
| `RoverFrame.AllZeroNoCells` | perception.py:42 | an all-zero grid has no non-zero cells |
| `RoverFrame.RoverCoords` | perception.py:40-47 | one x and one y per non-zero cell |
| `RoverFrame.RoverCoordsInverse` | perception.py:40-47 | the k-th point is x = H - row, y = W/2 - col of the k-th non-zero cell in row-major order; 1 <= x <= H and -W/2 < y <= W/2 |
| `RoverFrame.RoverCoordsCover` | perception.py:40-47 | every non-zero cell (row, col) yields the point (H - row, W/2 - col) |
| `RoverFrame.RoverCoordsOrder` | perception.py:42-47 | points come in row-major order: x never increases, and within one x, y strictly decreases |
| `RoverFrame.AllZeroNoPoints` | perception.py:40-47 | an all-zero grid yields empty coordinate arrays |
| `WorldClip.Trunc` | perception.py:86-87 | `np.int_` is the integer part toward zero: 0 <= t <= v < t + 1 for v >= 0, and t - 1 < v <= t <= 0 for v < 0 |
| `WorldClip.Clip` | perception.py:86-87 | `np.clip` lands in [lo, hi], keeps in-range values, and sends low values to lo and high values to hi |
| `WorldClip.WorldCoord` | perception.py:86-87 | the clipped cell is in [0, world_size - 1]; it equals the truncated value when that is in range, and out-of-range values land on the nearest edge |
| `WorldClip.WorldCoords` | perception.py:86-87 | the clip step over an array: same length, every entry in [0, world_size - 1] |
| `WorldClip.TruncTowardZero` | perception.py:86-87 | truncation is symmetric about zero, and values strictly between -1 and 1 go to 0 |
| `WorldClip.TruncMonotone` | perception.py:86-87 | truncation keeps order |
| `WorldClip.WorldCoordMonotone` | perception.py:86-87 | the clip step keeps order, so nothing wraps around |
| `VisibilityMask.ZeroBlock` | perception.py:119-125 | a sliced assignment of 0 zeroes every channel of the cells in the block, with bounds cut at the array's end, and leaves every other cell unchanged |
| `VisibilityMask.TrimVisibilityMask` | perception.py:119-121 | rows 0-59, columns 0-49 and columns from 270 are 0 in every channel; every other cell is unchanged |
| `VisibilityMask.Copy` | perception.py:124 | a fresh array of the same shape and contents |
| `VisibilityMask.MakeRockMask` | perception.py:124-125 | a fresh array equal to the mask with rows 0-109 zeroed; the mask is untouched |
| `VisibilityMask.BandsNeverClassified` | perception.py:119-121 | with the bands clear, the selections before morphology (lines 128 and 134) pick no road and no obstacle in them |
| `Evidence.Marked` | perception.py:157-159 | `worldmap[ys, xs, ch] = 255` as a value: the shape is kept; channel `ch` of every addressed (x, y) is 255, and every other channel and cell is unchanged |
| `Evidence.Cleared` | perception.py:162-163 | `worldmap[worldmap[:,:,2] > 0, 0] = 0` as a value: the shape is kept; the obstacle channel is 0 wherever the navigable channel is above 0, and every other channel and cell is unchanged |
| `Evidence.Fused` | perception.py:157-163 | one cycle's update (road, obstacle and rock marks, in that order, then the clearing rule) keeps the map's shape; its value per cell is stated by `Evidence.FusedCell` |
| `Evidence.MarkedIdempotent` | perception.py:157-159 | marking the same cells in the same channel twice equals marking them once |
| `Evidence.ClearedResolvesConflicts` | perception.py:162-163 | after the clearing rule no cell has obstacle evidence under a navigable flag; rock and navigable channels are unchanged, and so is the obstacle flag of every non-navigable cell |
| `Evidence.ClearedConflictFreeUnchanged` | perception.py:162-163 | the clearing rule leaves a conflict-free map unchanged |
| `Evidence.FusedCell` | perception.py:157-163 | after one cycle a cell is navigable if addressed as road or already navigable, rock if addressed or already rock; its obstacle flag is 0 if navigable, else 255 if addressed as obstacle, else unchanged |
| `Evidence.FusedInvariants` | perception.py:157-163 | after one cycle the map is conflict-free, and a map of 0/255 flags stays one |
| `Evidence.FusedMonotone` | perception.py:157-163 | rock and navigable evidence never decreases |
| `Evidence.FusedIdempotent` | perception.py:157-163 | running the same cycle twice gives the same map as running it once |
| `Evidence.FusedNothing` | perception.py:157-163 | a cycle with nothing classified leaves a conflict-free map unchanged |
| `WorldMapState.WorldMap.MarkCells` | perception.py:157-159 | the new map is the old map with the addressed cells set to 255 in the given channel |
| `WorldMapState.WorldMap.ClearObstacleWhereNavigable` | perception.py:162-163 | the new map is the old map with the obstacle flag zeroed wherever the navigable flag is above 0 |
| `WorldMapState.WorldMap.Fuse` | perception.py:157-163 | the new map is the old map fused with the cycle's road, obstacle and rock cells, and it is conflict-free |
| `WorldMapState.WorldMap.FuseWorldPositions` | perception.py:153-163 | translated world positions are truncated and clipped into the map, then fused as by `Fuse` |

## Where the code and the design differ

The model follows the code in each case.

- Rocks are selected on the warped frame with no mask at all
  (perception.py:132, 138). The rock mask built at perception.py:124-125 is
  never read, so rock evidence can come from the zeroed border bands and from
  rows 0-109. `Classify.Rocks` takes no mask.
- World coordinates are truncated toward zero by `np.int_`
  (perception.py:86-87), not rounded: 12.9 lands on cell 12, and -0.7 lands
  on cell 0 without being clipped.
- An all-black warped frame is not an empty classification. Its complement
  is all 255, so every pixel whose mask is above 160 on every channel is an
  obstacle (`Classify.BlackFrame`). A cycle with nothing classified leaves
  the map unchanged only if the map is already conflict-free
  (`Evidence.FusedNothing`).
- Road and obstacle selections are disjoint before cleanup
  (`Classify.RoadObstacleDisjoint`), whereas the design allows them to
  overlap there. After cleanup (the dilation at perception.py:130 and the
  erosion at perception.py:136) they can overlap, and dilated obstacles can
  spill up to 4 pixels into the zeroed bands. Only the map-level clearing
  rule (perception.py:162-163) resolves such an overlap.
- The code checks nothing about its inputs: there is no frame-size, pose or
  calibration validation, so the model has no error paths.

## Left out

- Perspective warp (`perspect_transform`, perception.py:92-97, 116, 118, 132): a cv2 call whose interpolation is not visible. The warped frame and the warped mask are inputs. The mask is any byte array, so interpolated edge values between 0 and 255 are covered.
- Morphology (`cv2.dilate` and `cv2.erode`, perception.py:32, 130, 136): foreign calls. `Classify.RockThres`, `Classify.Rocks`, `Classify.Road` and `Classify.Obstacles` are the selections before morphology, and so are the lemmas about them (`RoadObstacleDisjoint`, `ConfinedToMask`, `FullMaskRules`, `BlackFrame`, `BandsNeverClassified`); they say nothing about the dilated and eroded grids that get mapped. The rover-frame and map steps accept any grid, so they cover whatever the morphology produces.
- Rotation and scaling (`rotate_pix`, `translate_pix`, perception.py:61-75) and polar coordinates (`to_polar_coords`, perception.py:51-58, 165-166): floating-point trigonometry. `WorldMap.FuseWorldPositions` takes the translated positions as inputs, and `Rover.nav_angles` is not modelled.
- The debug image writes to `Rover.vision_image` (perception.py:140-141): they only display.
- The Rover object wiring (perception.py:106, 149-151, 172). The frame, pose and map are passed in explicitly.
- `WorldMapState.WorldMap.MarkCells`: the world map is allocated by the caller, outside `perception.py`; it is modelled as bytes, assuming it starts with values from 0 to 255, because `perception_step` only ever writes 0 and 255 to it. numpy's wrap-around for negative indices is not modelled: the method requires indices inside the map, which the clip step always gives.
- `WorldClip.Trunc`: NaN, infinities and values beyond the 64-bit integer range are not modelled. Positions are exact reals.
- `RoverFrame.RoverCoords`: numpy floats are modelled as exact reals. Every value is an integer or a half-integer well inside float precision.
- `WorldMapState.WorldMap.FuseWorldPositions` clips with `world_size` equal to the map's side. In the code both are 200, set separately.
