/**
 The world map as a value: a size x size x 3 grid indexed [y][x][channel],
 channel 0 obstacle, 1 rock, 2 navigable, each cell a flag 0 or 255. The
 functions here say what one perception cycle does to it: mark the cells of
 each category with 255, then clear the obstacle flag wherever the
 navigable flag is set.
 */
module Evidence {
  import opened Bytes

  const ObstacleChannel: nat := 0
  const RockChannel: nat := 1
  const NavigableChannel: nat := 2

  /** World map contents, [y][x][channel]. */
  type Map3 = seq<seq<seq<Byte>>>

  /** A world cell as the coordinate arrays give it: (x, y). */
  type WorldCell = (int, int)

  predicate IsMap(m: Map3, size: nat) {
    |m| == size &&
    forall y :: 0 <= y < size ==> |m[y]| == size && forall x :: 0 <= x < size ==> |m[y][x]| == 3
  }

  /** Every channel of every cell is a flag, 0 or 255. */
  predicate Flags(m: Map3, size: nat)
    requires IsMap(m, size)
  {
    forall y, x, c :: 0 <= y < size && 0 <= x < size && 0 <= c < 3 ==> m[y][x][c] == 0 || m[y][x][c] == 255
  }

  /** No cell holds obstacle evidence while its navigable flag is set. */
  predicate ConflictFree(m: Map3, size: nat)
    requires IsMap(m, size)
  {
    forall y, x :: 0 <= y < size && 0 <= x < size && m[y][x][NavigableChannel] > 0 ==>
      m[y][x][ObstacleChannel] == 0
  }

  /** The cells named by two parallel coordinate arrays, first n entries. */
  function Addressed(xs: seq<int>, ys: seq<int>, n: nat): (cells: set<WorldCell>)
    requires n <= |xs| && n <= |ys|
  {
    set k | 0 <= k < n :: (xs[k], ys[k])
  }

  /** `worldmap[ys, xs, ch] = 255` for the given cells. */
  function Marked(m: Map3, size: nat, cells: set<WorldCell>, ch: nat): (r: Map3)
    requires IsMap(m, size) && ch < 3
    ensures IsMap(r, size)
    ensures forall y, x, c :: 0 <= y < size && 0 <= x < size && 0 <= c < 3 ==>
      r[y][x][c] == if c == ch && (x, y) in cells then 255 else m[y][x][c]
  {
    seq(size, y requires 0 <= y < size =>
      seq(size, x requires 0 <= x < size =>
        seq(3, c requires 0 <= c < 3 => if c == ch && (x, y) in cells then 255 else m[y][x][c])))
  }

  /** `worldmap[worldmap[:,:,2] > 0, 0] = 0`. */
  function Cleared(m: Map3, size: nat): (r: Map3)
    requires IsMap(m, size)
    ensures IsMap(r, size)
    ensures forall y, x, c :: 0 <= y < size && 0 <= x < size && 0 <= c < 3 ==>
      r[y][x][c] ==
        if c == ObstacleChannel && m[y][x][NavigableChannel] > 0 then 0 else m[y][x][c]
  {
    seq(size, y requires 0 <= y < size =>
      seq(size, x requires 0 <= x < size =>
        seq(3, c requires 0 <= c < 3 =>
          if c == ObstacleChannel && m[y][x][NavigableChannel] > 0 then 0 else m[y][x][c])))
  }

  /** One cycle's fusion: road, obstacle and rock cells marked in that order, then cleared. */
  function Fused(m: Map3, size: nat, road: set<WorldCell>, obstacles: set<WorldCell>,
                 rocks: set<WorldCell>): (r: Map3)
    requires IsMap(m, size)
    ensures IsMap(r, size)
  {
    var withRoad := Marked(m, size, road, NavigableChannel);
    var withObstacles := Marked(withRoad, size, obstacles, ObstacleChannel);
    Cleared(Marked(withObstacles, size, rocks, RockChannel), size)
  }

  /** Two maps of one shape that agree on every cell are equal. */
  lemma MapExt(a: Map3, b: Map3, size: nat)
    requires IsMap(a, size) && IsMap(b, size)
    requires forall y, x :: 0 <= y < size && 0 <= x < size ==>
      a[y][x][0] == b[y][x][0] && a[y][x][1] == b[y][x][1] && a[y][x][2] == b[y][x][2]
    ensures a == b
  {
    forall y | 0 <= y < size
      ensures a[y] == b[y]
    {
      forall x | 0 <= x < size
        ensures a[y][x] == b[y][x]
      {
      }
    }
  }

  /** The first n + 1 entries address the cells of the first n and one more. */
  lemma AddressedStep(xs: seq<int>, ys: seq<int>, n: nat)
    requires n < |xs| && n < |ys|
    ensures Addressed(xs, ys, n + 1) == Addressed(xs, ys, n) + {(xs[n], ys[n])}
  {
    assert (xs[n], ys[n]) in Addressed(xs, ys, n + 1);
  }

  /** Marking the same cells of the same channel twice is marking them once. */
  lemma MarkedIdempotent(m: Map3, size: nat, cells: set<WorldCell>, ch: nat)
    requires IsMap(m, size) && ch < 3
    ensures Marked(Marked(m, size, cells, ch), size, cells, ch) == Marked(m, size, cells, ch)
  {
    MapExt(Marked(Marked(m, size, cells, ch), size, cells, ch), Marked(m, size, cells, ch), size);
  }

  /** Clearing leaves no conflict and touches nothing but obstacle flags under navigable cells. */
  lemma ClearedResolvesConflicts(m: Map3, size: nat)
    requires IsMap(m, size)
    ensures ConflictFree(Cleared(m, size), size)
    ensures forall y, x :: 0 <= y < size && 0 <= x < size ==>
      Cleared(m, size)[y][x][RockChannel] == m[y][x][RockChannel] &&
      Cleared(m, size)[y][x][NavigableChannel] == m[y][x][NavigableChannel] &&
      (m[y][x][NavigableChannel] == 0 ==> Cleared(m, size)[y][x][ObstacleChannel] == m[y][x][ObstacleChannel])
  {
  }

  /** A map with no conflict is left as it is by the clearing rule. */
  lemma ClearedConflictFreeUnchanged(m: Map3, size: nat)
    requires IsMap(m, size) && ConflictFree(m, size)
    ensures Cleared(m, size) == m
  {
    MapExt(Cleared(m, size), m, size);
  }

  /**
   What one cycle does to a cell: its navigable and rock flags are set where
   addressed and kept otherwise; its obstacle flag is 0 if the cell is (or
   was) navigable, else 255 if addressed as obstacle, else kept. In
   particular a cell marked navigable ends with no obstacle evidence even
   when the same cycle marked it obstacle.
   */
  lemma FusedCell(m: Map3, size: nat, road: set<WorldCell>, obstacles: set<WorldCell>,
                  rocks: set<WorldCell>, y: nat, x: nat)
    requires IsMap(m, size) && y < size && x < size
    ensures var r := Fused(m, size, road, obstacles, rocks);
      var navigable := (x, y) in road || m[y][x][NavigableChannel] > 0;
      r[y][x][NavigableChannel] == (if (x, y) in road then 255 else m[y][x][NavigableChannel]) &&
      r[y][x][RockChannel] == (if (x, y) in rocks then 255 else m[y][x][RockChannel]) &&
      r[y][x][ObstacleChannel] ==
        (if navigable then 0 else if (x, y) in obstacles then 255 else m[y][x][ObstacleChannel])
  {
    var withRoad := Marked(m, size, road, NavigableChannel);
    var withObstacles := Marked(withRoad, size, obstacles, ObstacleChannel);
    var withRocks := Marked(withObstacles, size, rocks, RockChannel);
    assert withRocks[y][x][NavigableChannel] == withRoad[y][x][NavigableChannel];
  }

  /** After a cycle the map has no conflict, and flags stay flags. */
  lemma FusedInvariants(m: Map3, size: nat, road: set<WorldCell>, obstacles: set<WorldCell>,
                        rocks: set<WorldCell>)
    requires IsMap(m, size)
    ensures ConflictFree(Fused(m, size, road, obstacles, rocks), size)
    ensures Flags(m, size) ==> Flags(Fused(m, size, road, obstacles, rocks), size)
  {
    forall y, x | 0 <= y < size && 0 <= x < size {
      FusedCell(m, size, road, obstacles, rocks, y, x);
    }
  }

  /** Evidence only accumulates: rock and navigable flags never go down. */
  lemma FusedMonotone(m: Map3, size: nat, road: set<WorldCell>, obstacles: set<WorldCell>,
                      rocks: set<WorldCell>, y: nat, x: nat)
    requires IsMap(m, size) && y < size && x < size
    ensures var r := Fused(m, size, road, obstacles, rocks);
      r[y][x][RockChannel] >= m[y][x][RockChannel] &&
      r[y][x][NavigableChannel] >= m[y][x][NavigableChannel]
  {
    FusedCell(m, size, road, obstacles, rocks, y, x);
  }

  /** Running the same cycle twice gives the map one run gives. */
  lemma FusedIdempotent(m: Map3, size: nat, road: set<WorldCell>, obstacles: set<WorldCell>,
                        rocks: set<WorldCell>)
    requires IsMap(m, size)
    ensures var once := Fused(m, size, road, obstacles, rocks);
      Fused(once, size, road, obstacles, rocks) == once
  {
    var once := Fused(m, size, road, obstacles, rocks);
    var twice := Fused(once, size, road, obstacles, rocks);
    forall y, x | 0 <= y < size && 0 <= x < size
      ensures twice[y][x][0] == once[y][x][0] && twice[y][x][1] == once[y][x][1] &&
        twice[y][x][2] == once[y][x][2]
    {
      FusedCellAgain(m, size, road, obstacles, rocks, y, x);
    }
    MapExt(twice, once, size);
  }

  lemma FusedCellAgain(m: Map3, size: nat, road: set<WorldCell>, obstacles: set<WorldCell>,
                       rocks: set<WorldCell>, y: nat, x: nat)
    requires IsMap(m, size) && y < size && x < size
    ensures var once := Fused(m, size, road, obstacles, rocks);
      var twice := Fused(once, size, road, obstacles, rocks);
      twice[y][x][0] == once[y][x][0] && twice[y][x][1] == once[y][x][1] &&
      twice[y][x][2] == once[y][x][2]
  {
    FusedCell(m, size, road, obstacles, rocks, y, x);
    FusedCell(Fused(m, size, road, obstacles, rocks), size, road, obstacles, rocks, y, x);
  }

  /** A cycle with nothing classified leaves a conflict-free map unchanged. */
  lemma FusedNothing(m: Map3, size: nat)
    requires IsMap(m, size) && ConflictFree(m, size)
    ensures Fused(m, size, {}, {}, {}) == m
  {
    var r := Fused(m, size, {}, {}, {});
    forall y, x | 0 <= y < size && 0 <= x < size
      ensures r[y][x][0] == m[y][x][0] && r[y][x][1] == m[y][x][1] && r[y][x][2] == m[y][x][2]
    {
      FusedCell(m, size, {}, {}, {}, y, x);
    }
    MapExt(r, m, size);
  }
}
