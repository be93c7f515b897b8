/**
 The visibility masks of `perception_step`. The warped all-255 frame is an
 H x W x 3 byte array; fixed bands along its top, left and right edges are
 zeroed in place, and a copy with a deeper top band zeroed becomes the rock
 mask.
 */
module VisibilityMask {
  import opened Bytes
  import opened Classify

  /** Rows [0, 60) are cut from the visibility mask. */
  const TopBand: nat := 60
  /** Columns [0, 50) are cut from the visibility mask. */
  const LeftBand: nat := 50
  /** Columns [270, W) are cut from the visibility mask. */
  const RightBandStart: nat := 270
  /** Rows [0, 110) are cut from the rock mask. */
  const RockTopBand: nat := 110

  predicate InBorderBand(i: int, j: int) {
    i < TopBand || j < LeftBand || RightBandStart <= j
  }

  /** The mask array read as an image of pixels. */
  function MaskImage(a: array3<Byte>): (img: Image)
    requires a.Length2 == 3
    reads a
    ensures |img| == a.Length0
    ensures forall i :: 0 <= i < a.Length0 ==> |img[i]| == a.Length1
    ensures forall i, j :: 0 <= i < a.Length0 && 0 <= j < a.Length1 ==>
      img[i][j] == Pixel(a[i, j, 0], a[i, j, 1], a[i, j, 2])
  {
    seq(a.Length0, i requires 0 <= i < a.Length0 reads a =>
      seq(a.Length1, j requires 0 <= j < a.Length1 reads a =>
        Pixel(a[i, j, 0], a[i, j, 1], a[i, j, 2])))
  }

  /** Every pixel in the border bands is black. */
  predicate BandsClear(img: Image) {
    forall i, j :: 0 <= i < |img| && 0 <= j < |img[i]| && InBorderBand(i, j) ==>
      img[i][j] == Pixel(0, 0, 0)
  }

  /**
   `a[r0:r1, c0:c1, :] = 0`: every channel of the cells in the block is
   zeroed, bounds past the array's end are cut short as numpy slices are,
   and every other cell keeps its value.
   */
  method ZeroBlock(a: array3<Byte>, r0: nat, r1: nat, c0: nat, c1: nat)
    modifies a
    ensures forall i, j, c :: 0 <= i < a.Length0 && 0 <= j < a.Length1 && 0 <= c < a.Length2 ==>
      a[i, j, c] == if r0 <= i < r1 && c0 <= j < c1 then 0 else old(a[i, j, c])
  {
    var i := r0;
    while i < r1 && i < a.Length0
      invariant r0 <= i && (i == r0 || i <= r1)
      invariant forall i', j', c :: 0 <= i' < a.Length0 && 0 <= j' < a.Length1 && 0 <= c < a.Length2 ==>
        a[i', j', c] == if r0 <= i' < i && c0 <= j' < c1 then 0 else old(a[i', j', c])
    {
      var j := c0;
      while j < c1 && j < a.Length1
        invariant c0 <= j && (j == c0 || j <= c1)
        invariant forall i', j', c :: 0 <= i' < a.Length0 && 0 <= j' < a.Length1 && 0 <= c < a.Length2 ==>
          a[i', j', c] ==
            if (r0 <= i' < i && c0 <= j' < c1) || (i' == i && c0 <= j' < j) then 0 else old(a[i', j', c])
      {
        forall c | 0 <= c < a.Length2 {
          a[i, j, c] := 0;
        }
        j := j + 1;
      }
      i := i + 1;
    }
  }

  /**
   `mask[0:60,:] = 0; mask[:,0:50] = 0; mask[:,270:] = 0`: the border bands
   are zero in every channel and every other cell is unchanged.
   */
  method TrimVisibilityMask(mask: array3<Byte>)
    modifies mask
    ensures forall i, j, c :: 0 <= i < mask.Length0 && 0 <= j < mask.Length1 && 0 <= c < mask.Length2 ==>
      mask[i, j, c] == if InBorderBand(i, j) then 0 else old(mask[i, j, c])
    ensures mask.Length2 == 3 ==> BandsClear(MaskImage(mask))
  {
    ZeroBlock(mask, 0, TopBand, 0, mask.Length1);
    ZeroBlock(mask, 0, mask.Length0, 0, LeftBand);
    ZeroBlock(mask, 0, mask.Length0, RightBandStart, mask.Length1);
  }

  /** `np.copy(a)`: a fresh array with the same shape and contents. */
  method Copy(a: array3<Byte>) returns (b: array3<Byte>)
    ensures fresh(b)
    ensures b.Length0 == a.Length0 && b.Length1 == a.Length1 && b.Length2 == a.Length2
    ensures forall i, j, c :: 0 <= i < a.Length0 && 0 <= j < a.Length1 && 0 <= c < a.Length2 ==>
      b[i, j, c] == a[i, j, c]
  {
    b := new Byte[a.Length0, a.Length1, a.Length2];
    var i := 0;
    while i < a.Length0
      invariant i <= a.Length0
      invariant forall i', j, c :: 0 <= i' < i && 0 <= j < a.Length1 && 0 <= c < a.Length2 ==>
        b[i', j, c] == a[i', j, c]
    {
      var j := 0;
      while j < a.Length1
        invariant j <= a.Length1
        invariant forall i', j', c ::
          0 <= i' < a.Length0 && 0 <= j' < a.Length1 && 0 <= c < a.Length2 && (i' < i || (i' == i && j' < j))
          ==> b[i', j', c] == a[i', j', c]
      {
        forall c | 0 <= c < a.Length2 {
          b[i, j, c] := a[i, j, c];
        }
        j := j + 1;
      }
      i := i + 1;
    }
  }

  /**
   `rock_mask = np.copy(mask); rock_mask[0:110,:] = 0`: the rock mask is the
   visibility mask with rows [0, 110) zeroed, in a new array, so the
   visibility mask itself is not changed.
   */
  method MakeRockMask(mask: array3<Byte>) returns (rockMask: array3<Byte>)
    ensures fresh(rockMask)
    ensures rockMask.Length0 == mask.Length0 && rockMask.Length1 == mask.Length1
    ensures rockMask.Length2 == mask.Length2
    ensures forall i, j, c :: 0 <= i < mask.Length0 && 0 <= j < mask.Length1 && 0 <= c < mask.Length2 ==>
      rockMask[i, j, c] == if i < RockTopBand then 0 else mask[i, j, c]
  {
    rockMask := Copy(mask);
    ZeroBlock(rockMask, 0, RockTopBand, 0, rockMask.Length1);
  }

  /**
   With the bands of the mask clear, no road and no obstacle is ever
   selected in them. The rock selection takes no mask and is not covered.
   */
  lemma BandsNeverClassified(warped: Image, mask: Image)
    requires SameShape(warped, mask)
    requires BandsClear(mask)
    ensures forall i, j :: 0 <= i < |warped| && 0 <= j < |warped[i]| && InBorderBand(i, j) ==>
      Road(warped, mask)[i][j] == 0 && Obstacles(warped, mask)[i][j] == 0
  {
    forall i, j | 0 <= i < |warped| && 0 <= j < |warped[i]| && InBorderBand(i, j)
      ensures Road(warped, mask)[i][j] == 0 && Obstacles(warped, mask)[i][j] == 0
    {
      ConfinedToMask(warped, mask, i, j);
    }
  }
}
