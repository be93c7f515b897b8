/**
 `rover_coords`: the non-zero cells of a selection grid, in numpy's
 row-major `nonzero()` order, turned into rover-frame points with the rover
 at the bottom centre of the image: x = H - row (forward), y = W/2 - col
 (to the left). The points are numpy floats, modelled as reals; W/2 is a
 true division.
 */
module RoverFrame {
  import opened Bytes
  import opened Classify

  /** A grid cell, (row, column). */
  type Cell = (nat, nat)

  /** Strict row-major order on cells. */
  predicate Before(p: Cell, q: Cell) {
    p.0 < q.0 || (p.0 == q.0 && p.1 < q.1)
  }

  /** Every row of `g` is `w` wide, as in a numpy array of shape (|g|, w). */
  predicate IsGrid<T>(g: seq<seq<T>>, w: nat) {
    forall i :: 0 <= i < |g| ==> |g[i]| == w
  }

  /** The non-zero columns of one row `row` sitting at row index `i`, left to right. */
  function RowNonZero(row: seq<Byte>, i: nat): (r: seq<Cell>)
    ensures forall k :: 0 <= k < |r| ==> r[k].0 == i && r[k].1 < |row| && row[r[k].1] != 0
    ensures forall j :: 0 <= j < |row| && row[j] != 0 ==> (i, j) in r
    ensures forall k1, k2 :: 0 <= k1 < k2 < |r| ==> r[k1].1 < r[k2].1
  {
    if |row| == 0 then []
    else
      var last := |row| - 1;
      RowNonZero(row[..last], i) + (if row[last] != 0 then [(i, last)] else [])
  }

  /**
   `binary_img.nonzero()`, paired up: exactly the non-zero cells, each once,
   in strictly increasing row-major order.
   */
  function NonZero(img: Binary): (r: seq<Cell>)
    ensures forall k :: 0 <= k < |r| ==>
      r[k].0 < |img| && r[k].1 < |img[r[k].0]| && img[r[k].0][r[k].1] != 0
    ensures forall i, j :: 0 <= i < |img| && 0 <= j < |img[i]| && img[i][j] != 0 ==> (i, j) in r
    ensures forall k1, k2 :: 0 <= k1 < k2 < |r| ==> Before(r[k1], r[k2])
  {
    if |img| == 0 then []
    else
      var last := |img| - 1;
      AppendRow(img, last, NonZero(img[..last]), RowNonZero(img[last], last));
      NonZero(img[..last]) + RowNonZero(img[last], last)
  }

  /** The cells of all rows but the last, followed by those of the last row, are the cells of the grid. */
  lemma AppendRow(img: Binary, last: nat, front: seq<Cell>, back: seq<Cell>)
    requires last == |img| - 1
    requires forall k :: 0 <= k < |front| ==>
      front[k].0 < last && front[k].1 < |img[front[k].0]| && img[front[k].0][front[k].1] != 0
    requires forall i, j :: 0 <= i < last && 0 <= j < |img[i]| && img[i][j] != 0 ==> (i, j) in front
    requires forall k1, k2 :: 0 <= k1 < k2 < |front| ==> Before(front[k1], front[k2])
    requires forall k :: 0 <= k < |back| ==>
      back[k].0 == last && back[k].1 < |img[last]| && img[last][back[k].1] != 0
    requires forall j :: 0 <= j < |img[last]| && img[last][j] != 0 ==> (last, j) in back
    requires forall k1, k2 :: 0 <= k1 < k2 < |back| ==> back[k1].1 < back[k2].1
    ensures var r := front + back;
      (forall k :: 0 <= k < |r| ==> r[k].0 < |img| && r[k].1 < |img[r[k].0]| && img[r[k].0][r[k].1] != 0) &&
      (forall i, j :: 0 <= i < |img| && 0 <= j < |img[i]| && img[i][j] != 0 ==> (i, j) in r) &&
      (forall k1, k2 :: 0 <= k1 < k2 < |r| ==> Before(r[k1], r[k2]))
  {
    var r := front + back;
    forall k1, k2 | 0 <= k1 < k2 < |r| ensures Before(r[k1], r[k2]) {
      if k2 < |front| {
      } else if k1 >= |front| {
        assert r[k1] == back[k1 - |front|] && r[k2] == back[k2 - |front|];
      } else {
        assert r[k1] == front[k1] && r[k2] == back[k2 - |front|];
      }
    }
    forall i, j | 0 <= i < |img| && 0 <= j < |img[i]| && img[i][j] != 0 ensures (i, j) in r {
      if i < last { assert (i, j) in front; } else { assert i == last; }
    }
  }

  /** `rover_coords` on a grid `w` wide: one (x, y) pair per non-zero cell. */
  function RoverCoords(img: Binary, w: nat): (xy: (seq<real>, seq<real>))
    requires IsGrid(img, w)
    ensures |xy.0| == |xy.1| == |NonZero(img)|
  {
    var cells := NonZero(img);
    (seq(|cells|, k requires 0 <= k < |cells| => (|img| - cells[k].0) as real),
     seq(|cells|, k requires 0 <= k < |cells| => (w as real) / 2.0 - cells[k].1 as real))
  }

  /**
   Each rover-frame point is the point of a distinct non-zero cell, in
   row-major order: x = H - row and y = W/2 - col, so 1 <= x <= H and
   -W/2 < y <= W/2.
   */
  lemma RoverCoordsInverse(img: Binary, w: nat, k: nat)
    requires IsGrid(img, w)
    requires k < |NonZero(img)|
    ensures var (xs, ys) := RoverCoords(img, w);
      var (i, j) := NonZero(img)[k];
      i < |img| && j < w && img[i][j] != 0 &&
      xs[k] == (|img| - i) as real && ys[k] == (w as real) / 2.0 - j as real &&
      1.0 <= xs[k] <= |img| as real &&
      -(w as real) / 2.0 < ys[k] <= (w as real) / 2.0
  {
  }

  /** Every non-zero cell appears among the rover-frame points. */
  lemma RoverCoordsCover(img: Binary, w: nat, i: nat, j: nat)
    requires IsGrid(img, w)
    requires i < |img| && j < w && img[i][j] != 0
    ensures var (xs, ys) := RoverCoords(img, w);
      exists k :: 0 <= k < |xs| && xs[k] == (|img| - i) as real && ys[k] == (w as real) / 2.0 - j as real
  {
    var cells := NonZero(img);
    assert (i, j) in cells;
    var k :| 0 <= k < |cells| && cells[k] == (i, j);
    var (xs, ys) := RoverCoords(img, w);
    assert xs[k] == (|img| - i) as real;
  }

  /**
   The points come out farthest row first, and within a row from the left
   edge rightwards (y decreasing); in particular no point repeats.
   */
  lemma RoverCoordsOrder(img: Binary, w: nat, k1: nat, k2: nat)
    requires IsGrid(img, w)
    requires k1 < k2 < |NonZero(img)|
    ensures var (xs, ys) := RoverCoords(img, w);
      xs[k1] > xs[k2] || (xs[k1] == xs[k2] && ys[k1] > ys[k2])
  {
    assert Before(NonZero(img)[k1], NonZero(img)[k2]);
  }

  /** An all-zero selection yields no points. */
  lemma AllZeroNoPoints(img: Binary, w: nat)
    requires IsGrid(img, w)
    requires forall i, j :: 0 <= i < |img| && 0 <= j < |img[i]| ==> img[i][j] == 0
    ensures RoverCoords(img, w) == ([], [])
  {
    AllZeroNoCells(img);
  }

  lemma {:induction false} AllZeroRowNoCells(row: seq<Byte>, i: nat)
    requires forall j :: 0 <= j < |row| ==> row[j] == 0
    ensures RowNonZero(row, i) == []
  {
    if |row| > 0 {
      AllZeroRowNoCells(row[..|row| - 1], i);
    }
  }

  lemma {:induction false} AllZeroNoCells(img: Binary)
    requires forall i, j :: 0 <= i < |img| && 0 <= j < |img[i]| ==> img[i][j] == 0
    ensures NonZero(img) == []
  {
    if |img| > 0 {
      var last := |img| - 1;
      var front := img[..last];
      assert forall i, j :: 0 <= i < |front| && 0 <= j < |front[i]| ==> front[i][j] == 0 by {
        assert forall i :: 0 <= i < last ==> front[i] == img[i];
      }
      AllZeroNoCells(front);
      AllZeroRowNoCells(img[last], last);
    }
  }
}
