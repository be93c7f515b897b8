/**
 The rover's persistent world map, updated in place by `perception_step`:
 an array indexed [y, x, channel] whose contents are described by the
 value-level functions of module Evidence.
 */
module WorldMapState {
  import opened Bytes
  import opened Evidence
  import opened WorldClip

  class WorldMap {
    /** Side of the square map, in grid cells. */
    const size: nat
    const grid: array3<Byte>

    ghost predicate Valid()
      reads this
    {
      grid.Length0 == size && grid.Length1 == size && grid.Length2 == 3
    }

    /** The map's contents as a value. */
    function Model(): (m: Map3)
      requires Valid()
      reads this, grid
      ensures IsMap(m, size)
      ensures forall y, x, c :: 0 <= y < size && 0 <= x < size && 0 <= c < 3 ==> m[y][x][c] == grid[y, x, c]
    {
      seq(size, y requires 0 <= y < size reads grid =>
        seq(size, x requires 0 <= x < size reads grid =>
          seq(3, c requires 0 <= c < 3 reads grid => grid[y, x, c])))
    }

    /** A map with no evidence yet, as `np.zeros((size, size, 3))`. */
    constructor (size: nat)
      ensures Valid() && fresh(grid) && this.size == size
      ensures forall y, x, c :: 0 <= y < size && 0 <= x < size && 0 <= c < 3 ==> Model()[y][x][c] == 0
    {
      this.size := size;
      grid := new Byte[size, size, 3]((y, x, c) => 0);
    }

    /**
     `worldmap[ys, xs, channel] = 255`: every addressed cell gets the flag in
     that channel and nothing else changes.
     */
    method MarkCells(xs: seq<int>, ys: seq<int>, channel: nat)
      requires Valid()
      requires |xs| == |ys| && channel < 3
      requires forall k :: 0 <= k < |xs| ==> 0 <= xs[k] < size && 0 <= ys[k] < size
      modifies grid
      ensures Model() == Marked(old(Model()), size, Addressed(xs, ys, |xs|), channel)
    {
      var k := 0;
      while k < |xs|
        invariant k <= |xs|
        invariant forall y, x, c :: 0 <= y < size && 0 <= x < size && 0 <= c < 3 ==>
          grid[y, x, c] ==
            if c == channel && (x, y) in Addressed(xs, ys, k) then 255 else old(grid[y, x, c])
      {
        grid[ys[k], xs[k], channel] := 255;
        AddressedStep(xs, ys, k);
        k := k + 1;
      }
      MapExt(Model(), Marked(old(Model()), size, Addressed(xs, ys, |xs|), channel), size);
    }

    /** `worldmap[worldmap[:,:,2] > 0, 0] = 0`: navigable evidence retracts obstacle evidence. */
    method ClearObstacleWhereNavigable()
      requires Valid()
      modifies grid
      ensures Model() == Cleared(old(Model()), size)
    {
      var y := 0;
      while y < size
        invariant y <= size
        invariant forall y', x, c :: 0 <= y' < size && 0 <= x < size && 0 <= c < 3 ==>
          grid[y', x, c] ==
            if y' < y && c == ObstacleChannel && old(grid[y', x, NavigableChannel]) > 0 then 0
            else old(grid[y', x, c])
      {
        var x := 0;
        while x < size
          invariant x <= size
          invariant forall y', x', c :: 0 <= y' < size && 0 <= x' < size && 0 <= c < 3 ==>
            grid[y', x', c] ==
              if (y' < y || (y' == y && x' < x)) && c == ObstacleChannel &&
                 old(grid[y', x', NavigableChannel]) > 0
              then 0
              else old(grid[y', x', c])
        {
          if grid[y, x, NavigableChannel] > 0 {
            grid[y, x, ObstacleChannel] := 0;
          }
          x := x + 1;
        }
        y := y + 1;
      }
      MapExt(Model(), Cleared(old(Model()), size), size);
    }

    /**
     Lines 157-163 of `perception_step`: road, obstacle and rock cells marked
     in that order, then the clearing rule. The map ends conflict-free.
     */
    method Fuse(roadX: seq<int>, roadY: seq<int>, obstacleX: seq<int>, obstacleY: seq<int>,
                rockX: seq<int>, rockY: seq<int>)
      requires Valid()
      requires |roadX| == |roadY| && |obstacleX| == |obstacleY| && |rockX| == |rockY|
      requires forall k :: 0 <= k < |roadX| ==> 0 <= roadX[k] < size && 0 <= roadY[k] < size
      requires forall k :: 0 <= k < |obstacleX| ==> 0 <= obstacleX[k] < size && 0 <= obstacleY[k] < size
      requires forall k :: 0 <= k < |rockX| ==> 0 <= rockX[k] < size && 0 <= rockY[k] < size
      modifies grid
      ensures Model() == Fused(old(Model()), size, Addressed(roadX, roadY, |roadX|),
        Addressed(obstacleX, obstacleY, |obstacleX|), Addressed(rockX, rockY, |rockX|))
      ensures ConflictFree(Model(), size)
    {
      MarkCells(roadX, roadY, NavigableChannel);
      MarkCells(obstacleX, obstacleY, ObstacleChannel);
      MarkCells(rockX, rockY, RockChannel);
      ClearObstacleWhereNavigable();
      FusedInvariants(old(Model()), size, Addressed(roadX, roadY, |roadX|),
        Addressed(obstacleX, obstacleY, |obstacleX|), Addressed(rockX, rockY, |rockX|));
    }

    /**
     The update from the translated (not yet truncated) world positions of
     each category: each coordinate is truncated and clipped into the map,
     as `pix_to_world` does with `world_size` equal to the map's side, and
     the cells are fused into the map.
     */
    method FuseWorldPositions(roadX: seq<real>, roadY: seq<real>, obstacleX: seq<real>,
                              obstacleY: seq<real>, rockX: seq<real>, rockY: seq<real>)
      requires Valid() && 1 <= size
      requires |roadX| == |roadY| && |obstacleX| == |obstacleY| && |rockX| == |rockY|
      modifies grid
      ensures Model() == Fused(old(Model()), size,
        Addressed(WorldCoords(roadX, size), WorldCoords(roadY, size), |roadX|),
        Addressed(WorldCoords(obstacleX, size), WorldCoords(obstacleY, size), |obstacleX|),
        Addressed(WorldCoords(rockX, size), WorldCoords(rockY, size), |rockX|))
    {
      Fuse(WorldCoords(roadX, size), WorldCoords(roadY, size),
           WorldCoords(obstacleX, size), WorldCoords(obstacleY, size),
           WorldCoords(rockX, size), WorldCoords(rockY, size));
    }
  }
}
